# Cellular automata engines, modelled in Dafny

A model of the three engines in `automata.py`:

- `rule_thirty` is Wolfram's elementary rule 30 on a row of L cells. Cells beyond the ends are either dead or periodic.
- `life` is Conway's Game of Life on a grid whose outside is permanently dead.
- `life_periodic` is the Game of Life on a doubly periodic (toroidal) grid.

Each engine is modelled the way the code computes it. Every engine also has an independent reference definition, and a lemma proves, for all inputs, that the two agree. The correspondences are:

- Rule 30: the engine's per-cell case split for cells 0, 1 .. L-2 and L-1 agrees with the natural statement of each boundary policy.
  - Without wrap-around, positions -1 and L read as dead.
  - With wrap-around, the neighbours of cell i are cells i-1 and i+1 mod L.
- Life: the engine embeds the grid in a dead one-cell border and reads an eight-entry neighbour list from the padded buffer. Its result equals the rule applied to the set of in-range live neighbours.
- Periodic Life: the engine refreshes the border from the opposite edges (rows first, then full columns). Its result equals the rule applied on the torus, with positions taken mod rows and mod cols, corners included.

Files:

- `lattice.dfy` (module `Lattice`) holds the shared vocabulary:
  - error outcomes and the `Result` type;
  - rectangular boolean grids;
  - the one-cell padding (`Embed`, `Interior`);
  - the neighbour list and the Conway rule;
  - the dead-border engine generation (`PaddedStep`);
  - the counting lemma that turns an eight-entry count into the size of a set of positions;
  - a modular reduction `Mod`.
- `rule30.dfy` (module `Rule30`) holds the rule table, the one-row transition, its iteration, the entry point with its error cases, and the engine's loops as methods.
- `life.dfy` (module `Life`) holds the dead-border Game of Life.
- `life_periodic.dfy` (module `LifePeriodic`) holds the toroidal Game of Life.

Number of transitions: the generation loop at `automata.py:51` runs while the step counter is at most nsteps - 2. It therefore applies nsteps - 1 transitions, and nsteps = 1 returns the input unchanged. The model follows this count. The docstring examples at `automata.py:29-33` instead expect nsteps transitions. Both facts are proved:

- the documented values hold after 1 and 3 transitions;
- the entry point, called with nsteps 1 and 3, returns other values.

Error outcomes, each corresponding to an exception raised by the code:

- A step count below 1 fails (`NonPositiveSteps`): a negative count is not a valid dimension of the history buffer, and a count of 0 leaves the buffer without a generation 0.
- Rule 30 needs positions 0 and 1 to exist once a transition runs (`LatticeTooShort`).
- A Life grid with no rows has no second dimension (`EmptyGrid`).
- A ragged Life grid is not a 2-D array (`RaggedGrid`).

Periodic rule 30 is modelled for every L ≥ 2. The code indexes only positions L-1, 0, 1 and L-2, which all exist when L = 2.

## Model

| member | source | states |
|---|---|---|
| Lattice.CountTrue | automata.py:114 | the count of true entries is at most the list's length, is 0 exactly when no entry is true, and equals the length exactly when every entry is true |
| Lattice.Conway | automata.py:115-124 | a live cell is alive next exactly when it has 2 or 3 live neighbours, and a dead cell exactly when it has 3; together, the next state is alive iff the count is 3, or the cell is alive and the count is 2 |
| Lattice.NeighbourList | automata.py:104-113 | the list has eight entries; entry k is the buffer cell at the k-th offset: the row above left to right, then the left and right cells, then the row below left to right |
| Lattice.Interior | automata.py:126 | the rows x cols region at offset (1, 1) of a padded buffer, which the engines return: cell (i, j) is buffer cell (i+1, j+1) |
| Lattice.Embed | automata.py:98-99 | the grid placed at offset (1, 1) gives a (rows+2) x (cols+2) buffer whose border is all dead and whose interior is the grid |
| Lattice.EmbedInterior | automata.py:98-99 | embedding is inverse to taking the interior: a buffer with a dead border is the embedding of its own interior |
| Lattice.PaddedStep | automata.py:101-125 | one engine generation keeps the buffer's shape and never makes a border cell live; every interior cell follows the Conway rule on the count of its eight-entry list |
| Lattice.CountWindow | automata.py:104-114 | for any set of live positions inside the 3 x 3 window around a cell, counting true entries along the neighbour list gives the size of that set |
| Lattice.ModIsRemainder | automata.py:59-68 | the modular reduction used for the periodic wrap-around agrees with floored-division remainder for every integer and every positive modulus |
| Rule30.Rule | automata.py:40-45 | the table gives a value for all eight (left, centre, right) triples, and each entry equals left XOR (centre OR right) |
| Rule30.Step | automata.py:52-71 | one transition is a fresh row of the same length whose cell i is the engine's case split for i (`NextCell`): the table on (i-1, i, i+1) for cells 1 .. L-2 and the boundary policy for cells 0 and L-1 |
| Rule30.NextCell | automata.py:53-71 | without wrap-around, cell i of the next row is the table entry for (s[i-1], s[i], s[i+1]) with positions -1 and L read as dead; with wrap-around, it is the entry for (s[(i-1) mod L], s[i], s[(i+1) mod L]) |
| Rule30.StepNatural | automata.py:52-71 | for the whole row: without wrap-around, cell i of the next row is the table entry for (s[i-1], s[i], s[i+1]), with positions -1 and L read as dead; with wrap-around, it is the entry for (s[(i-1) mod L], s[i], s[(i+1) mod L]) |
| Rule30.StepIsLocal | automata.py:52-57 | an interior cell of the next row depends only on cells i-1, i and i+1 of the previous row |
| Rule30.StepCells | automata.py:52-71 | the loop over interior cells, followed by the two boundary writes, computes exactly one transition |
| Rule30.RuleThirty | automata.py:47-74 | a step count below 1 fails, and so does a row shorter than 2 once a transition runs; every other call succeeds; nsteps = 1 returns the input; the result has length L and is the row after nsteps - 1 transitions |
| Rule30.RunRuleThirty | automata.py:48-74 | the generation loop, run while the counter is at most nsteps - 2, yields the same outcome as the entry point, errors included |
| Rule30.Iterate | automata.py:51-72 | k transitions of the generation loop keep the row's length L (`IterateAdd` shows that runs compose) |
| Rule30.IterateAdd | automata.py:51-72 | a transitions followed by b transitions equal a + b transitions |
| Rule30.RuleThirtyIsIterate | automata.py:48-74 | for a row of length at least 2 and nsteps >= 1, the entry point succeeds with nsteps - 1 transitions of the row |
| Rule30.RuleThirtyResumes | automata.py:48-74 | running the engine for a + b + 1 generations is running it for a + 1 generations and then applying b more transitions to its result |
| Rule30.DocExamplesAsTransitions | automata.py:29-33 | one transition of [F, T, F] gives [T, T, T]; three transitions of [F, F, T, F, F] give [T, F, T, T, T] |
| Rule30.DocExamplesUnderEngineCount | automata.py:29-33 | with the nsteps - 1 count of the generation loop, the entry point gives [F, T, F] for nsteps 1 and [T, T, F, F, T] for nsteps 3, not the documented values |
| Life.Step | automata.py:115-124 | in the next generation, a live cell survives iff it has 2 or 3 live in-range neighbours, and a dead cell is born iff it has exactly 3 |
| Life.Generations | automata.py:101-125 | k generations of the rule keep the grid's shape |
| Life.PaddedGenerations | automata.py:101-125 | k engine generations keep the padded buffer's (rows+2) x (cols+2) shape (`PaddedGenerationsAreGenerations` relates them to the rule) |
| Life.PaddedLookup | automata.py:98-99 | reading the padded buffer at (a, c) is reading the grid at (a-1, c-1), where every position off the grid reads as dead |
| Life.PaddedCount | automata.py:104-114 | the count of the eight-entry list read from the padded buffer equals the number of live in-range neighbours of the cell |
| Life.PaddedStepIsStep | automata.py:101-124 | one engine generation on the embedded grid is the embedding of one generation of the rule |
| Life.PaddedGenerationsAreGenerations | automata.py:101-125 | k engine generations from the embedded grid give the embedding of k generations of the rule |
| Life.Life | automata.py:93-126 | fails on an empty grid, a ragged grid or a step count below 1, in that order, and succeeds on every other input; nsteps = 1 returns the grid; otherwise the result has the grid's shape and is nsteps - 1 generations of the rule |
| LifePeriodic.CopyRow | automata.py:186-187 | the destination row becomes the source row, and every other row is unchanged |
| LifePeriodic.CopyCol | automata.py:188-189 | in every row, the destination column becomes the source column, and every other cell is unchanged |
| LifePeriodic.Refresh | automata.py:186-189 | the border refresh keeps the buffer's (rows+2) x (cols+2) shape; `RefreshWraps` states what it writes |
| LifePeriodic.RefreshWraps | automata.py:186-189 | after the refresh (rows first, then full columns) the interior is unchanged, and every buffer cell, corners included, holds the interior cell at its row and column wrapped into 1 .. rows and 1 .. cols |
| LifePeriodic.Step | automata.py:176-185 | in the next torus generation, a live cell survives iff it has 2 or 3 live neighbours taken mod rows and cols, and a dead cell is born iff it has exactly 3 |
| LifePeriodic.Generations | automata.py:162-190 | k torus generations keep the grid's shape |
| LifePeriodic.Wrapped | automata.py:155-160 | the starting buffer, the grid embedded and refreshed, has the (rows+2) x (cols+2) shape; `TorusLookup` states its contents |
| LifePeriodic.PeriodicStep | automata.py:163-189 | one engine generation, the padded update followed by the border refresh, keeps the buffer's shape; `PeriodicStepWraps` states what it computes |
| LifePeriodic.PeriodicGenerations | automata.py:162-190 | k engine generations keep the buffer's shape; `PeriodicGenerationsWrap` states what they compute |
| LifePeriodic.TorusLookup | automata.py:156-160 | in the starting buffer, the cell at (a, c) is the torus cell at (a-1 mod rows, c-1 mod cols) |
| LifePeriodic.WrappedWrapsTorus | automata.py:156-160 | the starting buffer wraps the torus at every position, border included |
| LifePeriodic.TorusFlag | automata.py:165-173 | in a buffer that wraps the torus, entry k of the neighbour list says whether the k-th neighbour position is a live torus neighbour |
| LifePeriodic.TorusCount | automata.py:165-175 | in a buffer that wraps the torus, the count of the eight-entry list equals the number of live torus neighbours |
| LifePeriodic.PaddedStepOnTorus | automata.py:163-185 | from a buffer that wraps the torus, one engine generation leaves one torus generation in the interior |
| LifePeriodic.PeriodicStepWraps | automata.py:163-189 | one engine generation followed by the border refresh preserves wrapping: it turns a buffer that wraps g into one that wraps the next torus generation of g |
| LifePeriodic.PeriodicGenerationsWrap | automata.py:162-190 | k engine generations from a buffer that wraps g give a buffer that wraps k torus generations of g |
| LifePeriodic.WrapsInterior | automata.py:191 | the interior of a buffer that wraps g is g |
| LifePeriodic.PeriodicEngineIsGenerations | automata.py:155-191 | k engine generations from the grid's refreshed embedding leave k torus generations in the interior |
| LifePeriodic.RunEngine | automata.py:162-191 | the interior of the buffer after k engine generations from the grid's refreshed embedding is k torus generations of the grid |
| LifePeriodic.LifePeriodic | automata.py:150-191 | fails on an empty grid, a ragged grid or a step count below 1, in that order, and succeeds on every other input; nsteps = 1 returns the grid; otherwise the result has the grid's shape and is nsteps - 1 torus generations |

## Left out

- The history buffers are left out: each engine allocates an nsteps-deep buffer (`automata.py:48`, `98`, `155`). The model keeps only the current and next generation, which is all that any generation reads.
- Converting a Python list to an array (`automata.py:37-38`, `93-94`, `150-151`) is left out. Inputs are Dafny sequences from the start.
- `automata.py:115`, `120`, `176`, `181` test cells with `is True` / `is False`. On numpy booleans neither test holds, so as written no cell would ever be updated. The model uses ordinary boolean tests.
- `automata.py:126` returns from inside the generation loop, after one generation. As written, `life` returns nothing for nsteps = 1 and generation 1 for nsteps = 2. For nsteps >= 3 it returns the slice of generation nsteps - 1, which was never written and so is all dead. With the line 115/120 tests, generation 1 is all dead as well. The model runs all nsteps - 1 generations and returns the grid for nsteps = 1.
- `automata.py:157` builds the initial top border by copying one cell. The model refreshes generation 0 with the same full border refresh that lines 186-189 apply to every later generation.
- The neighbour count and update at `automata.py:175-185` are indented at the row level. As written, they run once per row with the last column's neighbours. On a grid with rows but no columns, the per-cell loop never binds the neighbour list, so with nsteps >= 2 line 175 raises an error. The model updates every cell, as the per-cell loop at lines 163-174 sets up. On a grid with no columns it returns the grid for every nsteps >= 1.
- Numpy's handling of non-boolean array elements is left out. Cells are booleans.
- Plotting (`plot_array`, `plot_hexes`, `plot_one_hex`) is left out because it is matplotlib output and floating-point hexagon geometry.
- `lifehex` and `life_generic` are left out because both return `NotImplemented` and have no behaviour to model.
