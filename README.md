# Game of Life engine and labyrinth solver, modelled in Dafny

This project models two small programs from the same repository.

**Game of Life** (`game_of_life/game_of_life.py`, class `GameOfLife`). The engine keeps a
bounded `rows x cols` board in two forms: a dense boolean matrix (`state`) and the set of
live coordinates (`living_cells`). `update` advances one generation by the B3/S23 rule.

- It scans every live cell. It counts that cell's live neighbours and gives one vote to each
  of its dead neighbours.
- It marks for death every live cell with fewer than two or more than three live neighbours.
- It marks for birth every dead cell with exactly three votes.
- It applies all deaths, then all births.

The model has these files:

- `game_of_life.dfy`:
  - a class `GameOfLife` with the same two fields;
  - an invariant `Valid()` saying the matrix and the set agree;
  - methods for `set_alive`, `set_dead`, `update` and `reset`;
  - `life_over` as a function;
  - `get_neighbours` as a function.

  The update is proved to produce `NextGeneration`, a reference definition that decides
  every cell of the board by the rule.
- `game_of_life_patterns.dfy` proves the configurations the engine's tests check on a
  10 x 10 board.

**Labyrinth** (`labrynth/main.cpp`). The labyrinth is a grid of text rows, and `.` is open
floor. Every open cell of the first row is an entrance.

- From each entrance, a depth-first search over simple paths of four-way moves keeps the
  longest path it meets.
- The driver picks the first of the longest per-entrance paths.
- The output gives the path's length, then the grid with each path cell replaced by its
  index in the path.

The model has these files:

- `labyrinth.dfy` models:
  - the neighbour lists;
  - the adjacency map;
  - the entrances;
  - the recursive search `navigate`, as a recursive method;
  - the per-entrance loop;
  - the selection in `main`.

  It proves that the result is a longest simple grid path from any entrance.
- `labyrinth_output.dfy` models the text rewrite of `write_output`, up to the point where
  the lines go to the file.

`is_space_available` is the predicate `Labyrinth.IsSpaceAvailable`. Its body is the
comparison with `.`, so it carries no contract of its own.

## Model

| member | source | states |
|---|---|---|
| GameOfLife.Neighbours | game_of_life/game_of_life.py:192-207 | The neighbours of pos are exactly the in-grid cells one king's move away: the eight offsets, cut off at the grid's edges. pos itself is never among them. |
| GameOfLife.NeighbourCount | game_of_life/game_of_life.py:202-206 | On a board of at least 2 x 2, a corner cell has 3 neighbours, another border cell has 5, and an interior cell has 8. |
| GameOfLife.NeighboursSymmetric | game_of_life/game_of_life.py:192-207 | q is a neighbour of p exactly when p is a neighbour of q. |
| GameOfLife.LiveAroundIsNeighboursMeet | game_of_life/game_of_life.py:218-222 | The live neighbours of a cell are its neighbourhood intersected with the live set. |
| GameOfLife.InNextGeneration | game_of_life/game_of_life.py:209-212 | A cell is in the next generation iff it is on the board and one of two holds: it is alive with 2 or 3 live neighbours, or it is dead with exactly 3. |
| GameOfLife.CountAndVote | game_of_life/game_of_life.py:218-225 | The counter for one live cell ends equal to that cell's number of live neighbours. Each of the cell's dead neighbours gets exactly one more vote. |
| GameOfLife.Scan | game_of_life/game_of_life.py:214-232 | After the scan: the vote map's keys are exactly the dead in-grid cells with a live neighbour, and each value is that cell's live-neighbour count. The kill set is exactly the live cells that fail the survival rule. The revive set is exactly the dead cells with three live neighbours. The two sets are disjoint. |
| GameOfLife.ScanYieldsNextGeneration | game_of_life/game_of_life.py:214-238 | Removing the kill set and adding the revive set gives exactly the next generation of the whole board, though the scan only visits cells next to live ones. |
| GameOfLife.BirthsTouchLiving | game_of_life/game_of_life.py:230-232 | Every cell born in the next generation touches a live cell of the current one. |
| GameOfLife.ExtinctionIsFinal | game_of_life/game_of_life.py:209-238 | The generation after an empty board is empty, so an update after life is over changes nothing. |
| GameOfLife.DeadMatrix | game_of_life/game_of_life.py:160-161 | The fresh matrix is rows x cols with every entry false. |
| GameOfLife.GameOfLife.constructor | game_of_life/game_of_life.py:141-151 | A new engine has the given size, a consistent state, every cell dead and no live cells. |
| GameOfLife.GameOfLife.InitialiseState | game_of_life/game_of_life.py:153-162 | Starting over: a fresh all-false matrix of the engine's size and an empty live set, consistent with each other. |
| GameOfLife.GameOfLife.SetAlive | game_of_life/game_of_life.py:164-172 | The cell becomes true in the matrix and joins the live set. No other matrix entry changes, and the invariant is kept. Repeating the call changes nothing more. |
| GameOfLife.GameOfLife.SetDead | game_of_life/game_of_life.py:174-182 | The cell becomes false and leaves the live set. No other entry changes. `ok` is false exactly when the cell was not alive, which is the KeyError case. |
| GameOfLife.GameOfLife.LifeOver | game_of_life/game_of_life.py:184-190 | True exactly when no entry of the matrix is alive. |
| GameOfLife.GameOfLife.Update | game_of_life/game_of_life.py:209-238 | The new live set is exactly NextGeneration of the old one. The matrix stays consistent with the set. |
| GameOfLife.GameOfLife.KillAll | game_of_life/game_of_life.py:234-235 | Kills every marked cell. Each one was alive, so no set_dead fails. |
| GameOfLife.GameOfLife.ReviveAll | game_of_life/game_of_life.py:237-238 | Brings every marked cell to life and keeps the invariant. |
| GameOfLife.GameOfLife.Reset | game_of_life/game_of_life.py:240-243 | Leaves the engine in the same state as a fresh construction: every cell dead, no live cells. |
| GameOfLifePatterns.BlinkerHasPeriodTwo | game_of_life/tests/test_configurations.py:14-37 | A vertical bar of three becomes horizontal, then vertical again. |
| GameOfLifePatterns.DiagonalDiesOut | game_of_life/tests/test_configurations.py:39-54 | The diagonal triomino becomes its centre cell, then the board is empty. |
| GameOfLifePatterns.BlockIsStill | game_of_life/tests/test_configurations.py:56-79 | The 2 x 2 block in the corner is unchanged by an update. |
| GameOfLifePatterns.BarGrowsIntoSlab | game_of_life/tests/test_configurations.py:81-96 | A bar of four becomes the 2 x 3 slab of six cells. |
| GameOfLifePatterns.SlabBecomesBeehive | game_of_life/tests/test_configurations.py:98-101 | The slab becomes a beehive. |
| GameOfLifePatterns.BeehiveIsStill | game_of_life/tests/test_configurations.py:103-106 | The beehive is unchanged by an update. |
| GameOfLifePatterns.HookDiesOut | game_of_life/tests/test_methods.py:42-56 | The corner triomino becomes the pair {(1,0),(1,1)}, then the board is empty. |
| GameOfLifePatterns.HookRun | game_of_life/tests/test_methods.py:42-83 | Through the engine: after two updates life is over, and after a reset every cell is dead. |
| GameOfLifePatterns.CornerNeighbourhood | game_of_life/tests/test_methods.py:26-28 | The neighbours of (0,0) on a 10 x 10 board are (0,1), (1,0) and (1,1). |
| GameOfLifePatterns.TopEdgeNeighbourhood | game_of_life/tests/test_methods.py:30-32 | The neighbours of (0,5) are the five listed cells. |
| GameOfLifePatterns.LeftEdgeNeighbourhood | game_of_life/tests/test_methods.py:34-36 | The neighbours of (5,0) are the five listed cells. |
| GameOfLifePatterns.InnerNeighbourhood | game_of_life/tests/test_methods.py:38-40 | The neighbours of (5,5) are all eight surrounding cells. |
| Labyrinth.NeighboursAreProbes | labrynth/main.cpp:45-59 | Each of the four probes keeps its cell exactly when that cell is in bounds and open, given a rectangular grid. |
| Labyrinth.NeighboursSpec | labrynth/main.cpp:38-61 | The neighbour list holds exactly the open cells one step away. Each is listed once, in the order down, up, right, left. |
| Labyrinth.GetAdjacencyList | labrynth/main.cpp:66-77 | The map's keys are exactly the open cells, and each maps to its neighbour list. |
| Labyrinth.AdjacencyNeighbours | labrynth/main.cpp:66-77 | Each key's list holds exactly the open cells one step away from it. |
| Labyrinth.AdjacencySymmetric | labrynth/main.cpp:66-77 | A neighbour of a key is itself a key, lists the first key back, and is one step away. |
| Labyrinth.GetEntrances | labrynth/main.cpp:82-90 | The entrances are exactly (0, i) for every '.' at position i of the first row, in increasing column order. |
| Labyrinth.Navigate | labrynth/main.cpp:95-113 | The caller's visited set gains exactly this node. Three things hold for longest: it never shrinks; it is either unchanged or replaced by a strictly longer path that starts with `path` and continues with a simple walk from this node avoiding visited; and no such walk from an unvisited node is longer than what was kept. |
| Labyrinth.BoundsStep | labrynth/main.cpp:104-111 | Bounds on the walks from each neighbour, with node also avoided, bound the walks from node. |
| Labyrinth.ChildImproves | labrynth/main.cpp:106-110 | A longer path found below a neighbour is still a simple walk from the node, once the node is put in front. |
| Labyrinth.FindLongestPaths | labrynth/main.cpp:118-128 | There is one path per entrance. Each path is a simple walk from its entrance, and no simple walk from that entrance is longer. |
| Labyrinth.SelectLongest | labrynth/main.cpp:177-184 | No path is longer than the result. The result is the empty path, or the first path of that greatest length. |
| Labyrinth.WalksAreGridPaths | labrynth/main.cpp:66-77 | Over the adjacency map of a grid, the simple walks from an open cell are exactly the grid paths from it: open cells, consecutive cells one step apart, none repeated. |
| Labyrinth.Solve | labrynth/main.cpp:170-184 | The answer is empty iff the first row has no '.'. Otherwise it is a grid path from a first-row cell, and no grid path from any first-row cell is longer. |
| LabyrinthOutput.DecimalString | labrynth/main.cpp:146 | The decimal text of a natural number is non-empty, all digits, and has no leading zero. |
| LabyrinthOutput.DecimalRoundTrip | labrynth/main.cpp:146-150 | Reading back the written decimal gives the number. |
| LabyrinthOutput.DecimalInjective | labrynth/main.cpp:145-147 | Different indices are written as different texts. |
| LabyrinthOutput.LabelSpec | labrynth/main.cpp:144-147 | On a path without repeats, the cell at path[i] reads i and every cell off the path keeps its character. |
| LabyrinthOutput.UntouchedRow | labrynth/main.cpp:135-156 | A row the path does not cross is written out unchanged. |
| LabyrinthOutput.JoinOfCharacters | labrynth/main.cpp:136-142 | Joining the one-character cell texts of a row spells the row. |
| LabyrinthOutput.WriteOutput | labrynth/main.cpp:133-158 | The first line is the decimal path length. Each following line is its grid row with the path's cells relabelled. There is one line per grid row. |

## Left out

- The Tkinter window (`ApplicationUI`), reading `config.json`, and the `__main__` block of
  `game_of_life.py`: these are user interface and configuration, not engine logic.
- `initialise_state` with a given `state` argument: only the default path (all dead) is
  modelled. An external matrix would leave `living_cells` empty beside live entries, which
  breaks the invariant the engine relies on.
- GameOfLife.GameOfLife.SetAlive: requires an in-grid position. Python would accept negative
  indices, which wrap to the other end of the row; that wrap-around is not modelled.
- GameOfLife.GameOfLife.SetDead: requires an in-grid position, for the same reason. The
  KeyError for a cell that is not alive is returned as `ok == false`, not raised as an
  exception.
- Python set and dict iteration order: each loop over a set picks its next element by
  nondeterministic choice, so every result holds for any order.
- The update loop is split into `Scan`, `CountAndVote`, `KillAll` and `ReviveAll` for the
  proofs. The statements and their order are those of `update`.
- `read_labrynth`, the `ofstream` writing in `write_output`, and the argument check in
  `main`: these are file and console I/O. `WriteOutput` returns the lines that would be
  written, without line terminators.
- Labyrinth.NeighboursSpec: requires a rectangular grid. With rows of unequal length, the
  C++ code indexes the row above or below with the current column, which can be out of range.
- Labyrinth.Solve: requires at least one row; `labrynth[0]` on an empty input has no meaning.
- Integer widths: `int` and `size_t` are unbounded here. Overflow of path lengths, indices or
  grid sizes is not modelled.
- Copying of the adjacency map and of `path` on each call, and the running time of the
  exhaustive search, are not modelled. Only the values the search returns are.
- `ros2/hello_ros2/setup.py` is not part of this model. The test files are modelled only
  through the configurations they check.
