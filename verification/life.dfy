/** Conway's Game of Life on a rows x cols grid whose outside is permanently
    dead. The engine embeds the grid at offset (1, 1) of an all-dead
    (rows+2) x (cols+2) buffer, computes every interior cell from the eight
    buffer cells around it, and never writes the border.

    The engine as written in the source diverges from this model in two
    places, both taken here as defects and not reproduced:
    - lines 115 and 120 test cells with `is True` / `is False`, which on
      numpy booleans never holds; the model uses ordinary boolean tests;
    - line 126 returns from inside the generation loop, after one generation:
      for nsteps = 1 the loop never runs and nothing is returned; for
      nsteps = 2 the result is generation 1; for nsteps >= 3 it is the slice
      of generation nsteps - 1, which was never written and so is all dead.
      The model runs all nsteps - 1 transitions and returns the grid
      unchanged for nsteps = 1. */
module Life {
  import opened Lattice

  /** Whether position (a, c) holds a live cell; positions off the grid do not. */
  predicate LiveAt(g: Grid, a: int, c: int) {
    0 <= a < |g| && 0 <= c < |g[a]| && g[a][c]
  }

  /** The live cells among the eight surrounding (i, j), off-grid ones excluded. */
  function LiveNeighbours(g: Grid, i: int, j: int): set<(int, int)> {
    set p | p in Window(i, j) && LiveAt(g, p.0, p.1)
  }

  /** One generation by the rule itself: every cell from the previous
      generation only, a live cell surviving iff it has 2 or 3 live
      neighbours and a dead cell being born iff it has exactly 3. */
  function Step(g: Grid, rows: nat, cols: nat): (r: Grid)
    requires IsShape(g, rows, cols)
    ensures IsShape(r, rows, cols)
    ensures forall i, j | 0 <= i < rows && 0 <= j < cols ::
      (g[i][j] ==> (r[i][j] <==> |LiveNeighbours(g, i, j)| in {2, 3}))
      && (!g[i][j] ==> (r[i][j] <==> |LiveNeighbours(g, i, j)| == 3))
  {
    seq(rows, i requires 0 <= i < rows =>
      seq(cols, j requires 0 <= j < cols => Conway(g[i][j], |LiveNeighbours(g, i, j)|)))
  }

  /** `k` generations of `Step`. */
  function Generations(g: Grid, rows: nat, cols: nat, k: nat): (r: Grid)
    requires IsShape(g, rows, cols)
    ensures IsShape(r, rows, cols)
  {
    if k == 0 then g else Step(Generations(g, rows, cols, k - 1), rows, cols)
  }

  /** `k` generations as the engine runs them, buffer to fresh buffer. */
  function PaddedGenerations(b: Grid, rows: nat, cols: nat, k: nat): (r: Grid)
    requires IsShape(b, rows + 2, cols + 2)
    ensures IsShape(r, rows + 2, cols + 2)
  {
    if k == 0 then b else PaddedStep(PaddedGenerations(b, rows, cols, k - 1), rows, cols)
  }

  /** Reading the padded buffer at (a, c) is reading the grid at (a-1, c-1),
      where every position off the grid reads as dead. */
  lemma PaddedLookup(g: Grid, rows: nat, cols: nat)
    requires IsShape(g, rows, cols)
    ensures forall a, c | 0 <= a < rows + 2 && 0 <= c < cols + 2 ::
      Embed(g, rows, cols)[a][c] == LiveAt(g, a - 1, c - 1)
  {
    var b := Embed(g, rows, cols);
    forall a, c | 0 <= a < rows + 2 && 0 <= c < cols + 2
      ensures b[a][c] == LiveAt(g, a - 1, c - 1)
    {
      if !IsBorder(rows, cols, a, c) {
        assert b[a][c] == Interior(b, rows, cols)[a - 1][c - 1];
      }
    }
  }

  /** The eight-entry count the engine takes in the padded buffer is the
      number of live in-range neighbours of the cell. */
  lemma PaddedCount(g: Grid, rows: nat, cols: nat, i: nat, j: nat)
    requires IsShape(g, rows, cols)
    requires i < rows && j < cols
    ensures CountTrue(NeighbourList(Embed(g, rows, cols), rows, cols, i + 1, j + 1))
         == |LiveNeighbours(g, i, j)|
  {
    var b := Embed(g, rows, cols);
    var ns := NeighbourList(b, rows, cols, i + 1, j + 1);
    var live := LiveNeighbours(g, i, j);
    var flags := seq(8, k requires 0 <= k < 8 => Positions(i, j)[k] in live);
    forall k | 0 <= k < 8 ensures ns[k] == flags[k] {
      var p := Positions(i, j)[k];
      assert p == (i + RowOffsets[k], j + ColOffsets[k]);
      assert p in Window(i, j);
      PaddedLookupAt(g, rows, cols, p.0 + 1, p.1 + 1);
    }
    assert ns == flags;
    CountWindow(i, j, live);
  }

  lemma PaddedLookupAt(g: Grid, rows: nat, cols: nat, a: nat, c: nat)
    requires IsShape(g, rows, cols)
    requires a < rows + 2 && c < cols + 2
    ensures Embed(g, rows, cols)[a][c] == LiveAt(g, a - 1, c - 1)
  {
    PaddedLookup(g, rows, cols);
  }

  /** One engine generation on the embedded grid is the embedding of one
      generation of the rule. */
  lemma PaddedStepIsStep(g: Grid, rows: nat, cols: nat)
    requires IsShape(g, rows, cols)
    ensures PaddedStep(Embed(g, rows, cols), rows, cols) == Embed(Step(g, rows, cols), rows, cols)
  {
    var b := Embed(g, rows, cols);
    var n := PaddedStep(b, rows, cols);
    var s := Step(g, rows, cols);
    var m := Interior(n, rows, cols);
    forall i | 0 <= i < rows ensures m[i] == s[i] {
      forall j | 0 <= j < cols ensures m[i][j] == s[i][j] {
        PaddedCount(g, rows, cols, i, j);
        assert b[i + 1][j + 1] == g[i][j];
      }
    }
    assert m == s;
    EmbedInterior(n, rows, cols);
  }

  /** Any number of engine generations from the embedded grid stays the
      embedding of the same number of rule generations. */
  lemma {:induction false} PaddedGenerationsAreGenerations(g: Grid, rows: nat, cols: nat, k: nat)
    requires IsShape(g, rows, cols)
    ensures PaddedGenerations(Embed(g, rows, cols), rows, cols, k)
         == Embed(Generations(g, rows, cols, k), rows, cols)
  {
    if k > 0 {
      PaddedGenerationsAreGenerations(g, rows, cols, k - 1);
      PaddedStepIsStep(Generations(g, rows, cols, k - 1), rows, cols);
    }
  }

  /** The engine entry point: a grid without rows, a ragged grid or a step
      count below 1 is rejected, in that order; otherwise the result is the
      interior of the buffer after nsteps - 1 generations, which is
      nsteps - 1 generations of the rule. */
  function Life(initial: Grid, nsteps: int): (r: Result<Grid>)
    ensures |initial| == 0 <==> r == Err(EmptyGrid)
    ensures |initial| > 0 && !Rectangular(initial) <==> r == Err(RaggedGrid)
    ensures |initial| > 0 && Rectangular(initial) && nsteps < 1 <==> r == Err(NonPositiveSteps)
    ensures |initial| > 0 && Rectangular(initial) && nsteps == 1 ==> r == Ok(initial)
    ensures |initial| > 0 && Rectangular(initial) && nsteps >= 1 ==> r.Ok?
    ensures r.Ok? ==> nsteps >= 1 && IsShape(r.value, |initial|, Width(initial))
    ensures r.Ok? ==> r.value == Generations(initial, |initial|, Width(initial), nsteps - 1)
  {
    if |initial| == 0 then Err(EmptyGrid)
    else if !Rectangular(initial) then Err(RaggedGrid)
    else if nsteps < 1 then Err(NonPositiveSteps)
    else
      var rows, cols := |initial|, Width(initial);
      PaddedGenerationsAreGenerations(initial, rows, cols, nsteps - 1);
      Ok(Interior(PaddedGenerations(Embed(initial, rows, cols), rows, cols, nsteps - 1), rows, cols))
  }
}
