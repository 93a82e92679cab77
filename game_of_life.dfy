/**
 * The Game of Life engine: a bounded rows x cols grid kept twice, as a
 * dense boolean matrix and as the set of live coordinates, advanced one
 * generation at a time by the B3/S23 rule.
 */
module GameOfLife {

  /** A cell coordinate (row, column), 0-indexed. */
  type Pos = (int, int)

  predicate InGrid(rows: nat, cols: nat, p: Pos) {
    0 <= p.0 < rows && 0 <= p.1 < cols
  }

  /** The eight Moore offsets, in the order the engine tries them. */
  const Directions: seq<(int, int)> :=
    [(0, 1), (0, -1), (1, 0), (1, -1), (1, 1), (-1, 0), (-1, -1), (-1, 1)]

  /** q is one of the eight cells surrounding p (Chebyshev distance one). */
  predicate Touching(p: Pos, q: Pos) {
    p != q && -1 <= q.0 - p.0 <= 1 && -1 <= q.1 - p.1 <= 1
  }

  /** The cell reached from p by the offset d. */
  function Shift(p: Pos, d: (int, int)): Pos {
    (p.0 + d.0, p.1 + d.1)
  }

  lemma OffsetIsDirection(d: (int, int))
    requires d != (0, 0) && -1 <= d.0 <= 1 && -1 <= d.1 <= 1
    ensures exists i :: 0 <= i < |Directions| && Directions[i] == d
  {
    if d.0 == 0 {
      assert d == Directions[0] || d == Directions[1];
    } else if d.0 == 1 {
      assert d == Directions[2] || d == Directions[3] || d == Directions[4];
    } else {
      assert d == Directions[5] || d == Directions[6] || d == Directions[7];
    }
  }

  /**
   * The Moore neighbourhood of p: every in-grid cell among the eight
   * offsets, so cut off at the edges of the grid, and never p itself.
   */
  function Neighbours(rows: nat, cols: nat, p: Pos): (ns: set<Pos>)
    ensures forall q {:trigger q in ns} :: q in ns <==> InGrid(rows, cols, q) && Touching(p, q)
    ensures p !in ns
  {
    var ns := set i | 0 <= i < |Directions| && InGrid(rows, cols, Shift(p, Directions[i])) :: Shift(p, Directions[i]);
    forall q | InGrid(rows, cols, q) && Touching(p, q) ensures q in ns {
      OffsetIsDirection((q.0 - p.0, q.1 - p.1));
    }
    ns
  }

  /** Being neighbours is a symmetric relation. */
  lemma NeighboursSymmetric(rows: nat, cols: nat, p: Pos, q: Pos)
    requires InGrid(rows, cols, p) && InGrid(rows, cols, q)
    ensures q in Neighbours(rows, cols, p) <==> p in Neighbours(rows, cols, q)
  {
  }

  /**
   * On a grid of at least 2 x 2 a corner cell has 3 neighbours, any other
   * cell on the border has 5 and an interior cell has 8.
   */
  lemma NeighbourCount(rows: nat, cols: nat, p: Pos)
    requires rows >= 2 && cols >= 2 && InGrid(rows, cols, p)
    ensures var onRowEdge := p.0 == 0 || p.0 == rows - 1;
            var onColEdge := p.1 == 0 || p.1 == cols - 1;
            |Neighbours(rows, cols, p)| ==
              if onRowEdge && onColEdge then 3
              else if onRowEdge || onColEdge then 5
              else 8
  {
    BorderedCount(rows, cols, p, Neighbours(rows, cols, p));
  }

  /** A neighbourhood given by its membership, so that counting it does not unfold the comprehension. */
  ghost predicate IsNeighbourhood(rows: nat, cols: nat, p: Pos, ns: set<Pos>) {
    forall q {:trigger q in ns} :: q in ns <==> InGrid(rows, cols, q) && Touching(p, q)
  }

  lemma NeighboursIsNeighbourhood(rows: nat, cols: nat, p: Pos)
    ensures IsNeighbourhood(rows, cols, p, Neighbours(rows, cols, p))
  {
  }

  lemma BorderedCount(rows: nat, cols: nat, p: Pos, ns: set<Pos>)
    requires rows >= 2 && cols >= 2 && InGrid(rows, cols, p) && IsNeighbourhood(rows, cols, p, ns)
    ensures var onRowEdge := p.0 == 0 || p.0 == rows - 1;
            var onColEdge := p.1 == 0 || p.1 == cols - 1;
            |ns| == if onRowEdge && onColEdge then 3 else if onRowEdge || onColEdge then 5 else 8
  {
    if p.0 == 0 {
      TopRowCount(rows, cols, p, ns);
    } else if p.0 == rows - 1 {
      BottomRowCount(rows, cols, p, ns);
    } else {
      MiddleRowCount(rows, cols, p, ns);
    }
  }

  lemma TopRowCount(rows: nat, cols: nat, p: Pos, ns: set<Pos>)
    requires rows >= 2 && cols >= 2 && InGrid(rows, cols, p) && p.0 == 0 && IsNeighbourhood(rows, cols, p, ns)
    ensures |ns| == if p.1 == 0 || p.1 == cols - 1 then 3 else 5
  {
    var r, c := p.0, p.1;
    var s: set<Pos>;
    if c == 0 {
      s := {(r, c + 1), (r + 1, c), (r + 1, c + 1)};
      assert |s| == 3;
    } else if c == cols - 1 {
      s := {(r, c - 1), (r + 1, c), (r + 1, c - 1)};
      assert |s| == 3;
    } else {
      s := {(r, c - 1), (r, c + 1), (r + 1, c - 1), (r + 1, c), (r + 1, c + 1)};
      assert |s| == 5;
    }
    SameSize(ns, s);
  }

  lemma BottomRowCount(rows: nat, cols: nat, p: Pos, ns: set<Pos>)
    requires rows >= 2 && cols >= 2 && InGrid(rows, cols, p) && p.0 == rows - 1 && IsNeighbourhood(rows, cols, p, ns)
    ensures |ns| == if p.1 == 0 || p.1 == cols - 1 then 3 else 5
  {
    var r, c := p.0, p.1;
    var s: set<Pos>;
    if c == 0 {
      s := {(r, c + 1), (r - 1, c), (r - 1, c + 1)};
      assert |s| == 3;
    } else if c == cols - 1 {
      s := {(r, c - 1), (r - 1, c), (r - 1, c - 1)};
      assert |s| == 3;
    } else {
      s := {(r, c - 1), (r, c + 1), (r - 1, c - 1), (r - 1, c), (r - 1, c + 1)};
      assert |s| == 5;
    }
    SameSize(ns, s);
  }

  lemma MiddleRowCount(rows: nat, cols: nat, p: Pos, ns: set<Pos>)
    requires cols >= 2 && InGrid(rows, cols, p) && 0 < p.0 < rows - 1 && IsNeighbourhood(rows, cols, p, ns)
    ensures |ns| == if p.1 == 0 || p.1 == cols - 1 then 5 else 8
  {
    var r, c := p.0, p.1;
    var s: set<Pos>;
    if c == 0 {
      s := {(r - 1, c), (r + 1, c), (r - 1, c + 1), (r, c + 1), (r + 1, c + 1)};
      assert |s| == 5;
    } else if c == cols - 1 {
      s := {(r - 1, c), (r + 1, c), (r - 1, c - 1), (r, c - 1), (r + 1, c - 1)};
      assert |s| == 5;
    } else {
      s := {(r - 1, c - 1), (r - 1, c), (r - 1, c + 1), (r, c - 1),
            (r, c + 1), (r + 1, c - 1), (r + 1, c), (r + 1, c + 1)};
      assert |s| == 8;
    }
    SameSize(ns, s);
  }

  lemma SameSize(a: set<Pos>, b: set<Pos>)
    requires a <= b && b <= a
    ensures |a| == |b|
  {
    assert a == b;
  }

  /** The live cells around p. */
  function LiveAround(rows: nat, cols: nat, living: set<Pos>, p: Pos): set<Pos> {
    set c | c in living && InGrid(rows, cols, c) && Touching(p, c)
  }

  /** The number of live cells around p. */
  function LiveNeighbours(rows: nat, cols: nat, living: set<Pos>, p: Pos): nat {
    |LiveAround(rows, cols, living, p)|
  }

  /** The live neighbours of p are the live cells of its neighbourhood. */
  lemma LiveAroundIsNeighboursMeet(rows: nat, cols: nat, living: set<Pos>, p: Pos)
    ensures LiveAround(rows, cols, living, p) == Neighbours(rows, cols, p) * living
  {
  }

  /** B3/S23: a live cell survives with 2 or 3 live neighbours, a dead one is born with exactly 3. */
  predicate Rule(alive: bool, liveNeighbours: nat) {
    if alive then liveNeighbours == 2 || liveNeighbours == 3 else liveNeighbours == 3
  }

  /**
   * The next generation: every cell of the grid decided by Rule against the
   * same, previous, generation.
   */
  ghost function NextGeneration(rows: nat, cols: nat, living: set<Pos>): set<Pos> {
    set r, c | 0 <= r < rows && 0 <= c < cols && Rule((r, c) in living, LiveNeighbours(rows, cols, living, (r, c))) :: (r, c)
  }

  lemma InNextGeneration(rows: nat, cols: nat, living: set<Pos>, p: Pos)
    ensures p in NextGeneration(rows, cols, living) <==>
            InGrid(rows, cols, p) && Rule(p in living, LiveNeighbours(rows, cols, living, p))
  {
    if InGrid(rows, cols, p) && Rule(p in living, LiveNeighbours(rows, cols, living, p)) {
      var (r, c) := p;
      assert (r, c) in NextGeneration(rows, cols, living);
    }
  }

  /** Counting one more element of a set against a fixed set. */
  lemma IntersectAddOne(a: set<Pos>, b: set<Pos>, x: Pos)
    requires x !in b
    ensures |a * (b + {x})| == |a * b| + (if x in a then 1 else 0)
  {
    if x in a {
      assert a * (b + {x}) == (a * b) + {x};
    } else {
      assert a * (b + {x}) == a * b;
    }
  }

  /**
   * Adding the live cell c to the cells counted so far adds one to the count
   * of exactly the cells around c.
   */
  lemma LiveNeighboursAddOne(rows: nat, cols: nat, done: set<Pos>, c: Pos, q: Pos)
    requires InGrid(rows, cols, c) && c !in done
    ensures LiveNeighbours(rows, cols, done + {c}, q) ==
            LiveNeighbours(rows, cols, done, q) + (if Touching(c, q) then 1 else 0)
  {
    if Touching(c, q) {
      assert LiveAround(rows, cols, done + {c}, q) == LiveAround(rows, cols, done, q) + {c};
    } else {
      assert LiveAround(rows, cols, done + {c}, q) == LiveAround(rows, cols, done, q);
    }
  }

  /**
   * The vote tally after the live cells `done` have voted, and the current
   * cell has voted for the dead cells among `seen`: every dead cell with a
   * vote is a key, and its value is its number of votes.
   */
  ghost predicate Tally(rows: nat, cols: nat, living: set<Pos>, done: set<Pos>, seen: set<Pos>, votes: map<Pos, nat>) {
    && (forall q {:trigger q in votes} :: q in votes <==>
          InGrid(rows, cols, q) && q !in living && (LiveNeighbours(rows, cols, done, q) > 0 || q in seen))
    && (forall q :: q in votes ==>
          votes[q] == LiveNeighbours(rows, cols, done, q) + (if q in seen then 1 else 0))
  }

  lemma TallyVote(rows: nat, cols: nat, living: set<Pos>, done: set<Pos>, seen: set<Pos>, votes: map<Pos, nat>, n: Pos)
    requires Tally(rows, cols, living, done, seen, votes)
    requires InGrid(rows, cols, n) && n !in living && n !in seen
    ensures Tally(rows, cols, living, done, seen + {n}, votes[n := (if n in votes then votes[n] else 0) + 1])
  {
  }

  lemma TallySkip(rows: nat, cols: nat, living: set<Pos>, done: set<Pos>, seen: set<Pos>, votes: map<Pos, nat>, n: Pos)
    requires Tally(rows, cols, living, done, seen, votes)
    requires n in living
    ensures Tally(rows, cols, living, done, seen + {n}, votes)
  {
  }

  /** Once a live cell has voted for all its dead neighbours, it counts as done. */
  lemma TallyNextCell(rows: nat, cols: nat, living: set<Pos>, done: set<Pos>, votes: map<Pos, nat>, cell: Pos, neighbours: set<Pos>)
    requires InGrid(rows, cols, cell) && cell !in done && IsNeighbourhood(rows, cols, cell, neighbours)
    requires Tally(rows, cols, living, done, neighbours, votes)
    ensures Tally(rows, cols, living, done + {cell}, {}, votes)
  {
    forall q
      ensures LiveNeighbours(rows, cols, done + {cell}, q) ==
              LiveNeighbours(rows, cols, done, q) + (if Touching(cell, q) then 1 else 0)
    {
      LiveNeighboursAddOne(rows, cols, done, cell, q);
    }
  }

  /**
   * One live cell's turn in the scan: count its live neighbours, and give
   * each of its dead neighbours one more vote.
   */
  method CountAndVote(rows: nat, cols: nat, living: set<Pos>, neighbours: set<Pos>, votes: map<Pos, nat>,
                      ghost cell: Pos, ghost done: set<Pos>)
    returns (aliveNeighbours: nat, votes': map<Pos, nat>)
    requires InGrid(rows, cols, cell) && cell !in done
    requires IsNeighbourhood(rows, cols, cell, neighbours)
    requires Tally(rows, cols, living, done, {}, votes)
    ensures aliveNeighbours == LiveNeighbours(rows, cols, living, cell)
    ensures Tally(rows, cols, living, done + {cell}, {}, votes')
  {
    votes' := votes;
    aliveNeighbours := 0;
    var rest := neighbours;
    ghost var seen: set<Pos> := {};
    while rest != {}
      invariant seen + rest == neighbours && seen !! rest
      invariant aliveNeighbours == |living * seen|
      invariant Tally(rows, cols, living, done, seen, votes')
      decreases rest
    {
      var neighbour :| neighbour in rest;
      if neighbour in living {
        aliveNeighbours := aliveNeighbours + 1;
        TallySkip(rows, cols, living, done, seen, votes', neighbour);
      } else {
        TallyVote(rows, cols, living, done, seen, votes', neighbour);
        votes' := votes'[neighbour := (if neighbour in votes' then votes'[neighbour] else 0) + 1];
      }
      IntersectAddOne(living, seen, neighbour);
      rest := rest - {neighbour};
      seen := seen + {neighbour};
    }
    assert LiveAround(rows, cols, living, cell) == living * neighbours;
    TallyNextCell(rows, cols, living, done, votes', cell, neighbours);
  }

  /**
   * The scan phase of an update: for every live cell, count its live
   * neighbours and let it vote for each dead neighbour. Nothing is changed;
   * every decision is taken against the generation `living`.
   */
  method Scan(rows: nat, cols: nat, living: set<Pos>)
    returns (deadNeighbours: map<Pos, nat>, cellsToKill: set<Pos>, cellsToRevive: set<Pos>)
    requires forall c :: c in living ==> InGrid(rows, cols, c)
    ensures forall q :: q in deadNeighbours <==>
              InGrid(rows, cols, q) && q !in living && LiveNeighbours(rows, cols, living, q) > 0
    ensures forall q :: q in deadNeighbours ==> deadNeighbours[q] == LiveNeighbours(rows, cols, living, q)
    ensures forall c :: c in cellsToKill <==> c in living && !Rule(true, LiveNeighbours(rows, cols, living, c))
    ensures forall q :: q in cellsToRevive <==>
              InGrid(rows, cols, q) && q !in living && Rule(false, LiveNeighbours(rows, cols, living, q))
    ensures cellsToKill <= living && cellsToKill !! cellsToRevive
  {
    deadNeighbours, cellsToKill := map[], {};
    var todo := living;
    ghost var done: set<Pos> := {};
    while todo != {}
      invariant done + todo == living && done !! todo
      invariant Tally(rows, cols, living, done, {}, deadNeighbours)
      invariant forall c :: c in cellsToKill <==> c in done && !Rule(true, LiveNeighbours(rows, cols, living, c))
      decreases todo
    {
      var cell :| cell in todo;
      var aliveNeighbours;
      var neighbours := Neighbours(rows, cols, cell);
      NeighboursIsNeighbourhood(rows, cols, cell);
      aliveNeighbours, deadNeighbours := CountAndVote(rows, cols, living, neighbours, deadNeighbours, cell, done);
      if aliveNeighbours < 2 || aliveNeighbours > 3 {
        cellsToKill := cellsToKill + {cell};
      }
      done := done + {cell};
      todo := todo - {cell};
    }

    cellsToRevive := {};
    var pending := deadNeighbours.Keys;
    while pending != {}
      invariant pending <= deadNeighbours.Keys
      invariant forall q :: q in cellsToRevive <==> q in deadNeighbours && q !in pending && deadNeighbours[q] == 3
      decreases pending
    {
      var deadNeighbour :| deadNeighbour in pending;
      if deadNeighbours[deadNeighbour] == 3 {
        cellsToRevive := cellsToRevive + {deadNeighbour};
      }
      pending := pending - {deadNeighbour};
    }
  }

  /**
   * Killing the cells a scan marked and reviving the ones it marked yields
   * exactly the next generation: the sparse scan decides every cell of the
   * grid, since a dead cell that no live cell touches has no live neighbour.
   */
  lemma ScanYieldsNextGeneration(rows: nat, cols: nat, living: set<Pos>, cellsToKill: set<Pos>, cellsToRevive: set<Pos>)
    requires forall c :: c in living ==> InGrid(rows, cols, c)
    requires forall c :: c in cellsToKill <==> c in living && !Rule(true, LiveNeighbours(rows, cols, living, c))
    requires forall q :: q in cellsToRevive <==>
               InGrid(rows, cols, q) && q !in living && Rule(false, LiveNeighbours(rows, cols, living, q))
    ensures (living - cellsToKill) + cellsToRevive == NextGeneration(rows, cols, living)
  {
    forall p ensures p in (living - cellsToKill) + cellsToRevive <==> p in NextGeneration(rows, cols, living) {
      InNextGeneration(rows, cols, living, p);
    }
  }

  /** A cell born into the next generation touches some cell of the previous one. */
  lemma BirthsTouchLiving(rows: nat, cols: nat, living: set<Pos>, p: Pos)
    requires p in NextGeneration(rows, cols, living) && p !in living
    ensures exists c :: c in living && Touching(p, c)
  {
    InNextGeneration(rows, cols, living, p);
    var c :| c in LiveAround(rows, cols, living, p);
  }

  /** Extinction is final: the generation after an empty one is empty. */
  lemma ExtinctionIsFinal(rows: nat, cols: nat)
    ensures NextGeneration(rows, cols, {}) == {}
  {
    forall p | p in NextGeneration(rows, cols, {}) ensures false {
      InNextGeneration(rows, cols, {}, p);
    }
  }

  /** Allocates the all-dead rows x cols matrix. */
  method DeadMatrix(rows: nat, cols: nat) returns (m: array2<bool>)
    ensures fresh(m) && m.Length0 == rows && m.Length1 == cols
    ensures forall r, c :: 0 <= r < rows && 0 <= c < cols ==> !m[r, c]
  {
    m := new bool[rows, cols]((r, c) => false);
  }

  /**
   * The engine. `state` is the dense matrix, `livingCells` the sparse set of
   * live coordinates; Valid() says that they agree.
   */
  class GameOfLife {
    const rows: nat
    const cols: nat
    var state: array2<bool>
    var livingCells: set<Pos>

    ghost predicate Valid()
      reads this, state
    {
      && state.Length0 == rows && state.Length1 == cols
      && (forall p :: p in livingCells ==> InGrid(rows, cols, p))
      && (forall r, c :: 0 <= r < rows && 0 <= c < cols ==> (state[r, c] <==> (r, c) in livingCells))
    }

    /** Every cell is dead, in the matrix and in the set. */
    ghost predicate AllDead()
      reads this, state
    {
      && livingCells == {}
      && forall r, c :: 0 <= r < state.Length0 && 0 <= c < state.Length1 ==> !state[r, c]
    }

    constructor (rows: nat, cols: nat)
      ensures this.rows == rows && this.cols == cols
      ensures Valid() && AllDead() && fresh(state)
    {
      this.rows, this.cols := rows, cols;
      state := new bool[rows, cols]((r, c) => false);
      livingCells := {};
    }

    /** Starts over with every cell dead (the state argument left at None). */
    method InitialiseState()
      modifies this
      ensures Valid() && AllDead() && fresh(state)
    {
      state := DeadMatrix(rows, cols);
      livingCells := {};
    }

    /** Marks pos alive in both views; nothing else changes. */
    method SetAlive(pos: Pos)
      requires Valid() && InGrid(rows, cols, pos)
      modifies this, state
      ensures Valid() && state == old(state)
      ensures livingCells == old(livingCells) + {pos}
      ensures state[pos.0, pos.1]
      ensures forall r, c :: 0 <= r < rows && 0 <= c < cols && (r, c) != pos ==> state[r, c] == old(state[r, c])
    {
      var (row, col) := pos;
      state[row, col] := true;
      livingCells := livingCells + {pos};
    }

    /**
     * Marks pos dead in both views. Removing a cell that is not alive raises
     * KeyError in the engine (after the matrix entry, already false, has been
     * written again); that outcome is `ok == false` and changes nothing.
     */
    method SetDead(pos: Pos) returns (ok: bool)
      requires Valid() && InGrid(rows, cols, pos)
      modifies this, state
      ensures Valid() && state == old(state)
      ensures ok <==> old(pos in livingCells)
      ensures livingCells == old(livingCells) - {pos}
      ensures !state[pos.0, pos.1]
      ensures forall r, c :: 0 <= r < rows && 0 <= c < cols && (r, c) != pos ==> state[r, c] == old(state[r, c])
    {
      var (row, col) := pos;
      state[row, col] := false;
      ok := pos in livingCells;
      if ok {
        livingCells := livingCells - {pos};
      }
    }

    /** Life is over when no cell of the matrix is alive. */
    function LifeOver(): (over: bool)
      requires Valid()
      reads this, state
      ensures over <==> forall r, c :: 0 <= r < rows && 0 <= c < cols ==> !state[r, c]
    {
      if |livingCells| == 0 then true
      else
        var p :| p in livingCells;
        assert state[p.0, p.1];
        false
    }

    /**
     * Advances one generation: scan first, then apply every death and every
     * birth, so that each decision is taken against the previous generation.
     */
    method Update()
      requires Valid()
      modifies this, state
      ensures Valid() && state == old(state)
      ensures livingCells == NextGeneration(rows, cols, old(livingCells))
    {
      var deadNeighbours, cellsToKill, cellsToRevive := Scan(rows, cols, livingCells);
      ScanYieldsNextGeneration(rows, cols, livingCells, cellsToKill, cellsToRevive);
      KillAll(cellsToKill);
      ReviveAll(cellsToRevive);
    }

    /** Applies the deaths of an update, one set_dead per cell. */
    method KillAll(cells: set<Pos>)
      requires Valid() && cells <= livingCells
      modifies this, state
      ensures Valid() && state == old(state)
      ensures livingCells == old(livingCells) - cells
    {
      var kill := cells;
      while kill != {}
        invariant Valid() && state == old(state)
        invariant kill <= cells
        invariant livingCells == old(livingCells) - (cells - kill)
        decreases kill
      {
        var cell :| cell in kill;
        var removed := SetDead(cell);
        assert removed;
        kill := kill - {cell};
      }
    }

    /** Applies the births of an update, one set_alive per cell. */
    method ReviveAll(cells: set<Pos>)
      requires Valid() && forall p :: p in cells ==> InGrid(rows, cols, p)
      modifies this, state
      ensures Valid() && state == old(state)
      ensures livingCells == old(livingCells) + cells
    {
      var revive := cells;
      while revive != {}
        invariant Valid() && state == old(state)
        invariant revive <= cells
        invariant livingCells == old(livingCells) + (cells - revive)
        decreases revive
      {
        var cell :| cell in revive;
        SetAlive(cell);
        revive := revive - {cell};
      }
    }

    /** Back to the state of a fresh engine of the same size. */
    method Reset()
      modifies this
      ensures Valid() && AllDead() && fresh(state)
    {
      InitialiseState();
    }
  }
}
