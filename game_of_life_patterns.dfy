/**
 * The configurations the engine is exercised on, on a 10 x 10 board: the
 * blinker, the diagonal triomino and the corner triomino that die out, the
 * block still life and the four-cell bar that settles into a beehive.
 * Each transition is proved cell by cell: a count lemma expresses the live
 * neighbour count of every position as a sum over the pattern's cells, a
 * step lemma decides the rule at one position, and a set lemma collects
 * the positions.
 */
module GameOfLifePatterns {
  import opened GameOfLife

  /** One when c touches p, zero otherwise. */
  function Touches(c: Pos, p: Pos): nat { if Touching(c, p) then 1 else 0 }

  /** The live count around p, for patterns of distinct cells on the board. */
  lemma CountOne(rows: nat, cols: nat, a: Pos, p: Pos)
    requires InGrid(rows, cols, a)
    ensures LiveNeighbours(rows, cols, {a}, p) == Touches(a, p)
  {
    assert LiveAround(rows, cols, {}, p) == {};
    LiveNeighboursAddOne(rows, cols, {}, a, p);
    assert {} + {a} == {a};
  }

  lemma CountTwo(rows: nat, cols: nat, a: Pos, b: Pos, p: Pos)
    requires InGrid(rows, cols, a) && InGrid(rows, cols, b) && a != b
    ensures LiveNeighbours(rows, cols, {a, b}, p) == Touches(a, p) + Touches(b, p)
  {
    CountOne(rows, cols, a, p);
    LiveNeighboursAddOne(rows, cols, {a}, b, p);
    assert {a} + {b} == {a, b};
  }

  lemma CountThree(rows: nat, cols: nat, a: Pos, b: Pos, c: Pos, p: Pos)
    requires InGrid(rows, cols, a) && InGrid(rows, cols, b) && InGrid(rows, cols, c)
    requires a != b && a != c && b != c
    ensures LiveNeighbours(rows, cols, {a, b, c}, p) == Touches(a, p) + Touches(b, p) + Touches(c, p)
  {
    CountTwo(rows, cols, a, b, p);
    LiveNeighboursAddOne(rows, cols, {a, b}, c, p);
    assert {a, b} + {c} == {a, b, c};
  }

  lemma CountFour(rows: nat, cols: nat, a: Pos, b: Pos, c: Pos, d: Pos, p: Pos)
    requires InGrid(rows, cols, a) && InGrid(rows, cols, b) && InGrid(rows, cols, c) && InGrid(rows, cols, d)
    requires a != b && a != c && a != d && b != c && b != d && c != d
    ensures LiveNeighbours(rows, cols, {a, b, c, d}, p) ==
            Touches(a, p) + Touches(b, p) + Touches(c, p) + Touches(d, p)
  {
    CountThree(rows, cols, a, b, c, p);
    LiveNeighboursAddOne(rows, cols, {a, b, c}, d, p);
    assert {a, b, c} + {d} == {a, b, c, d};
  }

  lemma CountSix(rows: nat, cols: nat, a: Pos, b: Pos, c: Pos, d: Pos, e: Pos, f: Pos, p: Pos)
    requires InGrid(rows, cols, a) && InGrid(rows, cols, b) && InGrid(rows, cols, c)
    requires InGrid(rows, cols, d) && InGrid(rows, cols, e) && InGrid(rows, cols, f)
    requires a != b && a != c && a != d && a != e && a != f
    requires b != c && b != d && b != e && b != f
    requires c != d && c != e && c != f && d != e && d != f && e != f
    ensures LiveNeighbours(rows, cols, {a, b, c, d, e, f}, p) ==
            Touches(a, p) + Touches(b, p) + Touches(c, p) + Touches(d, p) + Touches(e, p) + Touches(f, p)
  {
    CountFour(rows, cols, a, b, c, d, p);
    LiveNeighboursAddOne(rows, cols, {a, b, c, d}, e, p);
    assert {a, b, c, d} + {e} == {a, b, c, d, e};
    LiveNeighboursAddOne(rows, cols, {a, b, c, d, e}, f, p);
    assert {a, b, c, d, e} + {f} == {a, b, c, d, e, f};
  }

  // The patterns, anchored in the top-left corner as on the test board.
  const VerticalBar: set<Pos> := {(0, 1), (1, 1), (2, 1)}
  const HorizontalBar: set<Pos> := {(1, 0), (1, 1), (1, 2)}
  const Diagonal: set<Pos> := {(0, 2), (1, 1), (2, 0)}
  const Centre: set<Pos> := {(1, 1)}
  const Block: set<Pos> := {(0, 0), (0, 1), (1, 0), (1, 1)}
  const Bar: set<Pos> := {(0, 1), (1, 1), (2, 1), (3, 1)}
  const Slab: set<Pos> := {(1, 0), (1, 1), (1, 2), (2, 0), (2, 1), (2, 2)}
  const Beehive: set<Pos> := {(1, 0), (2, 0), (0, 1), (3, 1), (1, 2), (2, 2)}
  const Hook: set<Pos> := {(0, 1), (1, 0), (2, 0)}
  const Pair: set<Pos> := {(1, 0), (1, 1)}

  // Per-pattern instances of the count lemmas.
  lemma VerticalBarCount(p: Pos)
    ensures LiveNeighbours(10, 10, VerticalBar, p) == Touches((0, 1), p) + Touches((1, 1), p) + Touches((2, 1), p)
  {
    CountThree(10, 10, (0, 1), (1, 1), (2, 1), p);
  }

  lemma HorizontalBarCount(p: Pos)
    ensures LiveNeighbours(10, 10, HorizontalBar, p) == Touches((1, 0), p) + Touches((1, 1), p) + Touches((1, 2), p)
  {
    CountThree(10, 10, (1, 0), (1, 1), (1, 2), p);
  }

  lemma DiagonalCount(p: Pos)
    ensures LiveNeighbours(10, 10, Diagonal, p) == Touches((0, 2), p) + Touches((1, 1), p) + Touches((2, 0), p)
  {
    CountThree(10, 10, (0, 2), (1, 1), (2, 0), p);
  }

  lemma CentreCount(p: Pos)
    ensures LiveNeighbours(10, 10, Centre, p) == Touches((1, 1), p)
  {
    CountOne(10, 10, (1, 1), p);
  }

  lemma BlockCount(p: Pos)
    ensures LiveNeighbours(10, 10, Block, p) == Touches((0, 0), p) + Touches((0, 1), p) + Touches((1, 0), p) + Touches((1, 1), p)
  {
    CountFour(10, 10, (0, 0), (0, 1), (1, 0), (1, 1), p);
  }

  lemma BarCount(p: Pos)
    ensures LiveNeighbours(10, 10, Bar, p) == Touches((0, 1), p) + Touches((1, 1), p) + Touches((2, 1), p) + Touches((3, 1), p)
  {
    CountFour(10, 10, (0, 1), (1, 1), (2, 1), (3, 1), p);
  }

  lemma SlabCount(p: Pos)
    ensures LiveNeighbours(10, 10, Slab, p) == Touches((1, 0), p) + Touches((1, 1), p) + Touches((1, 2), p) + Touches((2, 0), p) + Touches((2, 1), p) + Touches((2, 2), p)
  {
    CountSix(10, 10, (1, 0), (1, 1), (1, 2), (2, 0), (2, 1), (2, 2), p);
  }

  lemma BeehiveCount(p: Pos)
    ensures LiveNeighbours(10, 10, Beehive, p) == Touches((1, 0), p) + Touches((2, 0), p) + Touches((0, 1), p) + Touches((3, 1), p) + Touches((1, 2), p) + Touches((2, 2), p)
  {
    CountSix(10, 10, (1, 0), (2, 0), (0, 1), (3, 1), (1, 2), (2, 2), p);
  }

  lemma HookCount(p: Pos)
    ensures LiveNeighbours(10, 10, Hook, p) == Touches((0, 1), p) + Touches((1, 0), p) + Touches((2, 0), p)
  {
    CountThree(10, 10, (0, 1), (1, 0), (2, 0), p);
  }

  lemma PairCount(p: Pos)
    ensures LiveNeighbours(10, 10, Pair, p) == Touches((1, 0), p) + Touches((1, 1), p)
  {
    CountTwo(10, 10, (1, 0), (1, 1), p);
  }

  // The rule at one position, first on the counts, then on the generation.
  lemma VerticalBarRule(p: Pos)
    ensures InGrid(10, 10, p) && Rule(p in VerticalBar, Touches((0, 1), p) + Touches((1, 1), p) + Touches((2, 1), p)) <==> p in HorizontalBar
  {
  }

  lemma VerticalBarStep(p: Pos)
    ensures p in NextGeneration(10, 10, VerticalBar) <==> p in HorizontalBar
  {
    InNextGeneration(10, 10, VerticalBar, p);
    VerticalBarCount(p);
    VerticalBarRule(p);
  }

  lemma HorizontalBarRule(p: Pos)
    ensures InGrid(10, 10, p) && Rule(p in HorizontalBar, Touches((1, 0), p) + Touches((1, 1), p) + Touches((1, 2), p)) <==> p in VerticalBar
  {
  }

  lemma HorizontalBarStep(p: Pos)
    ensures p in NextGeneration(10, 10, HorizontalBar) <==> p in VerticalBar
  {
    InNextGeneration(10, 10, HorizontalBar, p);
    HorizontalBarCount(p);
    HorizontalBarRule(p);
  }

  lemma DiagonalRule(p: Pos)
    ensures InGrid(10, 10, p) && Rule(p in Diagonal, Touches((0, 2), p) + Touches((1, 1), p) + Touches((2, 0), p)) <==> p in Centre
  {
  }

  lemma DiagonalStep(p: Pos)
    ensures p in NextGeneration(10, 10, Diagonal) <==> p in Centre
  {
    InNextGeneration(10, 10, Diagonal, p);
    DiagonalCount(p);
    DiagonalRule(p);
  }

  lemma CentreRule(p: Pos)
    ensures InGrid(10, 10, p) && Rule(p in Centre, Touches((1, 1), p)) <==> p in {}
  {
  }

  lemma CentreStep(p: Pos)
    ensures p in NextGeneration(10, 10, Centre) <==> p in {}
  {
    InNextGeneration(10, 10, Centre, p);
    CentreCount(p);
    CentreRule(p);
  }

  lemma BlockRule(p: Pos)
    ensures InGrid(10, 10, p) && Rule(p in Block, Touches((0, 0), p) + Touches((0, 1), p) + Touches((1, 0), p) + Touches((1, 1), p)) <==> p in Block
  {
  }

  lemma BlockStep(p: Pos)
    ensures p in NextGeneration(10, 10, Block) <==> p in Block
  {
    InNextGeneration(10, 10, Block, p);
    BlockCount(p);
    BlockRule(p);
  }

  lemma BarRule(p: Pos)
    ensures InGrid(10, 10, p) && Rule(p in Bar, Touches((0, 1), p) + Touches((1, 1), p) + Touches((2, 1), p) + Touches((3, 1), p)) <==> p in Slab
  {
  }

  lemma BarStep(p: Pos)
    ensures p in NextGeneration(10, 10, Bar) <==> p in Slab
  {
    InNextGeneration(10, 10, Bar, p);
    BarCount(p);
    BarRule(p);
  }

  lemma SlabRule(p: Pos)
    ensures InGrid(10, 10, p) && Rule(p in Slab, Touches((1, 0), p) + Touches((1, 1), p) + Touches((1, 2), p) + Touches((2, 0), p) + Touches((2, 1), p) + Touches((2, 2), p)) <==> p in Beehive
  {
  }

  lemma SlabStep(p: Pos)
    ensures p in NextGeneration(10, 10, Slab) <==> p in Beehive
  {
    InNextGeneration(10, 10, Slab, p);
    SlabCount(p);
    SlabRule(p);
  }

  lemma BeehiveRule(p: Pos)
    ensures InGrid(10, 10, p) && Rule(p in Beehive, Touches((1, 0), p) + Touches((2, 0), p) + Touches((0, 1), p) + Touches((3, 1), p) + Touches((1, 2), p) + Touches((2, 2), p)) <==> p in Beehive
  {
  }

  lemma BeehiveStep(p: Pos)
    ensures p in NextGeneration(10, 10, Beehive) <==> p in Beehive
  {
    InNextGeneration(10, 10, Beehive, p);
    BeehiveCount(p);
    BeehiveRule(p);
  }

  lemma HookRule(p: Pos)
    ensures InGrid(10, 10, p) && Rule(p in Hook, Touches((0, 1), p) + Touches((1, 0), p) + Touches((2, 0), p)) <==> p in Pair
  {
  }

  lemma HookStep(p: Pos)
    ensures p in NextGeneration(10, 10, Hook) <==> p in Pair
  {
    InNextGeneration(10, 10, Hook, p);
    HookCount(p);
    HookRule(p);
  }

  lemma PairRule(p: Pos)
    ensures InGrid(10, 10, p) && Rule(p in Pair, Touches((1, 0), p) + Touches((1, 1), p)) <==> p in {}
  {
  }

  lemma PairStep(p: Pos)
    ensures p in NextGeneration(10, 10, Pair) <==> p in {}
  {
    InNextGeneration(10, 10, Pair, p);
    PairCount(p);
    PairRule(p);
  }

  /** The blinker oscillates with period two. */
  lemma BlinkerHasPeriodTwo()
    ensures NextGeneration(10, 10, VerticalBar) == HorizontalBar
    ensures NextGeneration(10, 10, HorizontalBar) == VerticalBar
  {
    forall p ensures p in NextGeneration(10, 10, VerticalBar) <==> p in HorizontalBar {
      VerticalBarStep(p);
    }
    forall p ensures p in NextGeneration(10, 10, HorizontalBar) <==> p in VerticalBar {
      HorizontalBarStep(p);
    }
  }

  /** The diagonal triomino shrinks to its centre, which then dies. */
  lemma DiagonalDiesOut()
    ensures NextGeneration(10, 10, Diagonal) == Centre
    ensures NextGeneration(10, 10, Centre) == {}
  {
    forall p ensures p in NextGeneration(10, 10, Diagonal) <==> p in Centre {
      DiagonalStep(p);
    }
    forall p ensures p in NextGeneration(10, 10, Centre) <==> p in {} {
      CentreStep(p);
    }
  }

  /** The two-by-two block in the corner is a still life. */
  lemma BlockIsStill()
    ensures NextGeneration(10, 10, Block) == Block
  {
    forall p ensures p in NextGeneration(10, 10, Block) <==> p in Block {
      BlockStep(p);
    }
  }

  /** A bar of four grows into a slab of six ... */
  lemma BarGrowsIntoSlab()
    ensures NextGeneration(10, 10, Bar) == Slab
  {
    forall p ensures p in NextGeneration(10, 10, Bar) <==> p in Slab {
      BarStep(p);
    }
  }

  /** ... which becomes a beehive ... */
  lemma SlabBecomesBeehive()
    ensures NextGeneration(10, 10, Slab) == Beehive
  {
    forall p ensures p in NextGeneration(10, 10, Slab) <==> p in Beehive {
      SlabStep(p);
    }
  }

  /** ... a still life. */
  lemma BeehiveIsStill()
    ensures NextGeneration(10, 10, Beehive) == Beehive
  {
    forall p ensures p in NextGeneration(10, 10, Beehive) <==> p in Beehive {
      BeehiveStep(p);
    }
  }

  /** The corner triomino leaves a pair, which dies. */
  lemma HookDiesOut()
    ensures NextGeneration(10, 10, Hook) == Pair
    ensures NextGeneration(10, 10, Pair) == {}
  {
    forall p ensures p in NextGeneration(10, 10, Hook) <==> p in Pair {
      HookStep(p);
    }
    forall p ensures p in NextGeneration(10, 10, Pair) <==> p in {} {
      PairStep(p);
    }
  }

  /** A corner cell has three neighbours. */
  lemma CornerNeighbourhood()
    ensures Neighbours(10, 10, (0, 0)) == {(0, 1), (1, 0), (1, 1)}
  {
    var ns := Neighbours(10, 10, (0, 0));
    forall q ensures q in ns <==> q in {(0, 1), (1, 0), (1, 1)} {
    }
  }

  /** A cell on the top edge has five neighbours. */
  lemma TopEdgeNeighbourhood()
    ensures Neighbours(10, 10, (0, 5)) == {(0, 6), (0, 4), (1, 4), (1, 5), (1, 6)}
  {
    var ns := Neighbours(10, 10, (0, 5));
    forall q ensures q in ns <==> q in {(0, 6), (0, 4), (1, 4), (1, 5), (1, 6)} {
    }
  }

  /** A cell on the left edge has five neighbours. */
  lemma LeftEdgeNeighbourhood()
    ensures Neighbours(10, 10, (5, 0)) == {(5, 1), (4, 0), (4, 1), (6, 0), (6, 1)}
  {
    var ns := Neighbours(10, 10, (5, 0));
    forall q ensures q in ns <==> q in {(5, 1), (4, 0), (4, 1), (6, 0), (6, 1)} {
    }
  }

  /** An inner cell has all eight neighbours. */
  lemma InnerNeighbourhood()
    ensures Neighbours(10, 10, (5, 5)) == {(5, 6), (5, 4), (4, 4), (4, 5), (4, 6), (6, 4), (6, 5), (6, 6)}
  {
    var ns := Neighbours(10, 10, (5, 5));
    forall q ensures q in ns <==> q in {(5, 6), (5, 4), (4, 4), (4, 5), (4, 6), (6, 4), (6, 5), (6, 6)} {
    }
  }

  /**
   * The corner triomino driven through the engine: two updates end life,
   * and a reset leaves every cell dead.
   */
  method HookRun() returns (overAfterTwo: bool, overAfterReset: bool)
    ensures overAfterTwo && overAfterReset
  {
    var game := new GameOfLife(10, 10);
    game.SetAlive((0, 1));
    game.SetAlive((1, 0));
    game.SetAlive((2, 0));
    assert game.livingCells == Hook;
    HookDiesOut();
    game.Update();
    assert game.livingCells == Pair;
    game.Update();
    overAfterTwo := game.LifeOver();
    game.SetAlive((5, 5));
    game.Reset();
    overAfterReset := game.LifeOver();
  }
}
