/** Conway's Game of Life on a doubly periodic (toroidal) rows x cols grid.
    The engine keeps the grid at offset (1, 1) of a (rows+2) x (cols+2)
    buffer whose one-cell border is refreshed from the opposite edge after
    each generation: first the top and bottom border rows, then the left and
    right border columns (full height, border rows included). The neighbour
    count then reads the padded buffer exactly as the dead-border engine does.

    The engine as written in the source diverges from this model in three
    places, all taken here as defects and not reproduced:
    - line 157 sets up the top border of generation 0 by copying a single
      cell; the model refreshes generation 0 the way lines 186-189 refresh
      every later generation;
    - lines 175-185 sit at the row level instead of inside the per-cell loop
      of lines 164-174, so the count and update run once per row with the
      last column's neighbours (and, on a grid with no columns, the list is
      never bound, so the first generation raises an error); the model
      updates every cell, and on a grid with no columns every generation is
      the grid itself;
    - lines 176 and 181 test cells with `is True` / `is False`; the model uses
      ordinary boolean tests. */
module LifePeriodic {
  import opened Lattice

  /** Row `dst` of the buffer overwritten with row `src`. */
  function CopyRow(b: Grid, dst: nat, src: nat): (r: Grid)
    requires dst < |b| && src < |b|
    ensures |r| == |b| && r[dst] == b[src]
    ensures forall a | 0 <= a < |b| && a != dst :: r[a] == b[a]
  {
    b[dst := b[src]]
  }

  /** Column `dst` of the buffer overwritten with column `src`, in every row. */
  function CopyCol(b: Grid, rows: nat, cols: nat, dst: nat, src: nat): (r: Grid)
    requires IsShape(b, rows + 2, cols + 2)
    requires dst < cols + 2 && src < cols + 2
    ensures IsShape(r, rows + 2, cols + 2)
    ensures forall a | 0 <= a < rows + 2 :: r[a][dst] == b[a][src]
    ensures forall a, c | 0 <= a < rows + 2 && 0 <= c < cols + 2 && c != dst :: r[a][c] == b[a][c]
  {
    seq(rows + 2, a requires 0 <= a < rows + 2 => b[a][dst := b[a][src]])
  }

  /** The border refresh, in the engine's order: row 0 := row rows,
      row rows+1 := row 1, then column 0 := column cols, column cols+1 :=
      column 1. */
  function Refresh(b: Grid, rows: nat, cols: nat): (r: Grid)
    requires IsShape(b, rows + 2, cols + 2)
    ensures IsShape(r, rows + 2, cols + 2)
  {
    var top := CopyRow(b, 0, rows);
    var bottom := CopyRow(top, rows + 1, 1);
    var left := CopyCol(bottom, rows, cols, 0, cols);
    CopyCol(left, rows, cols, cols + 1, 1)
  }

  /** Buffer index that a padded index (0 .. n+1) stands for: 0 is n, n+1 is 1. */
  function Wrap(a: int, n: nat): int
    requires n > 0
  {
    Mod(a - 1, n) + 1
  }

  /** After a refresh, every buffer cell, corners included, holds the interior
      cell at the buffer's row and column taken modulo the grid's size.
      Refreshing rows before columns is what makes the corners right: the
      column copies carry the freshly written border rows along. */
  lemma RefreshWraps(b: Grid, rows: nat, cols: nat)
    requires IsShape(b, rows + 2, cols + 2)
    requires rows > 0 && cols > 0
    ensures Interior(Refresh(b, rows, cols), rows, cols) == Interior(b, rows, cols)
    ensures forall a, c | 0 <= a < rows + 2 && 0 <= c < cols + 2 ::
      Refresh(b, rows, cols)[a][c] == b[Wrap(a, rows)][Wrap(c, cols)]
  {
    var r := Refresh(b, rows, cols);
    forall a, c | 0 <= a < rows + 2 && 0 <= c < cols + 2
      ensures r[a][c] == b[Wrap(a, rows)][Wrap(c, cols)]
    {
      WrapIndex(a, rows);
      WrapIndex(c, cols);
    }
    var m, n := Interior(r, rows, cols), Interior(b, rows, cols);
    forall i | 0 <= i < rows ensures m[i] == n[i] {
      forall j | 0 <= j < cols ensures m[i][j] == n[i][j] {
        WrapIndex(i + 1, rows);
        WrapIndex(j + 1, cols);
      }
    }
  }

  lemma RefreshWrapsAt(b: Grid, rows: nat, cols: nat, a: nat, c: nat)
    requires IsShape(b, rows + 2, cols + 2)
    requires rows > 0 && cols > 0
    requires a < rows + 2 && c < cols + 2
    ensures Refresh(b, rows, cols)[a][c] == b[Wrap(a, rows)][Wrap(c, cols)]
  {
    RefreshWraps(b, rows, cols);
  }

  lemma WrapIndex(a: nat, n: nat)
    requires 0 < n && a < n + 2
    ensures Wrap(a, n) == if a == 0 then n else if a == n + 1 then 1 else a
  {
    if a == 0 {
      assert Mod(-1, n) == Mod(n - 1, n) == n - 1;
    } else if a == n + 1 {
      assert Mod(n, n) == Mod(0, n) == 0;
    }
  }

  /** The cell of the torus at position (a, c), taken modulo its size. */
  function TorusAt(g: Grid, rows: nat, cols: nat, a: int, c: int): bool
    requires IsShape(g, rows, cols) && rows > 0 && cols > 0
  {
    g[Mod(a, rows)][Mod(c, cols)]
  }

  /** The live cells among the eight positions surrounding (i, j) on the torus. */
  function LiveNeighbours(g: Grid, rows: nat, cols: nat, i: int, j: int): set<(int, int)>
    requires IsShape(g, rows, cols) && rows > 0 && cols > 0
  {
    set p | p in Window(i, j) && TorusAt(g, rows, cols, p.0, p.1)
  }

  /** One generation on the torus by the rule itself: a live cell survives
      iff it has 2 or 3 live neighbours, a dead cell is born iff it has
      exactly 3, neighbours being taken modulo rows and cols. */
  function Step(g: Grid, rows: nat, cols: nat): (r: Grid)
    requires IsShape(g, rows, cols)
    ensures IsShape(r, rows, cols)
    ensures forall i, j | 0 <= i < rows && 0 <= j < cols ::
      (g[i][j] ==> (r[i][j] <==> |LiveNeighbours(g, rows, cols, i, j)| in {2, 3}))
      && (!g[i][j] ==> (r[i][j] <==> |LiveNeighbours(g, rows, cols, i, j)| == 3))
  {
    seq(rows, i requires 0 <= i < rows =>
      seq(cols, j requires 0 <= j < cols => Conway(g[i][j], |LiveNeighbours(g, rows, cols, i, j)|)))
  }

  /** `k` generations of `Step`. */
  function Generations(g: Grid, rows: nat, cols: nat, k: nat): (r: Grid)
    requires IsShape(g, rows, cols)
    ensures IsShape(r, rows, cols)
  {
    if k == 0 then g else Step(Generations(g, rows, cols, k - 1), rows, cols)
  }

  /** The buffer the engine starts from: the grid embedded and its border refreshed. */
  function Wrapped(g: Grid, rows: nat, cols: nat): (b: Grid)
    requires IsShape(g, rows, cols)
    ensures IsShape(b, rows + 2, cols + 2)
  {
    Refresh(Embed(g, rows, cols), rows, cols)
  }

  /** One engine generation: every interior cell from the padded buffer into
      a fresh buffer, whose border is then refreshed. */
  function PeriodicStep(b: Grid, rows: nat, cols: nat): (r: Grid)
    requires IsShape(b, rows + 2, cols + 2)
    ensures IsShape(r, rows + 2, cols + 2)
  {
    Refresh(PaddedStep(b, rows, cols), rows, cols)
  }

  /** `k` engine generations. */
  function PeriodicGenerations(b: Grid, rows: nat, cols: nat, k: nat): (r: Grid)
    requires IsShape(b, rows + 2, cols + 2)
    ensures IsShape(r, rows + 2, cols + 2)
  {
    if k == 0 then b else PeriodicStep(PeriodicGenerations(b, rows, cols, k - 1), rows, cols)
  }

  /** Every cell of padded buffer `b`, border included, is the torus cell at
      its position minus one, taken modulo rows and cols. */
  predicate WrapsTorus(b: Grid, g: Grid, rows: nat, cols: nat)
    requires IsShape(b, rows + 2, cols + 2) && IsShape(g, rows, cols)
    requires rows > 0 && cols > 0
  {
    forall a, c | 0 <= a < rows + 2 && 0 <= c < cols + 2 :: b[a][c] == TorusAt(g, rows, cols, a - 1, c - 1)
  }

  /** Reading the refreshed buffer at (a, c) is reading the torus at
      (a-1, c-1) modulo its size: the padded lookup is modular indexing. */
  lemma TorusLookup(g: Grid, rows: nat, cols: nat, a: nat, c: nat)
    requires IsShape(g, rows, cols) && rows > 0 && cols > 0
    requires a < rows + 2 && c < cols + 2
    ensures Wrapped(g, rows, cols)[a][c] == TorusAt(g, rows, cols, a - 1, c - 1)
  {
    var e := Embed(g, rows, cols);
    WrapIndex(a, rows);
    WrapIndex(c, cols);
    var a', c' := Wrap(a, rows), Wrap(c, cols);
    RefreshWrapsAt(e, rows, cols, a, c);
    assert e[a'][c'] == Interior(e, rows, cols)[a' - 1][c' - 1] == g[a' - 1][c' - 1];
  }

  /** The buffer the engine starts from wraps the torus everywhere. */
  lemma WrappedWrapsTorus(g: Grid, rows: nat, cols: nat)
    requires IsShape(g, rows, cols) && rows > 0 && cols > 0
    ensures WrapsTorus(Wrapped(g, rows, cols), g, rows, cols)
  {
    forall a, c | 0 <= a < rows + 2 && 0 <= c < cols + 2
      ensures Wrapped(g, rows, cols)[a][c] == TorusAt(g, rows, cols, a - 1, c - 1)
    {
      TorusLookup(g, rows, cols, a, c);
    }
  }

  /** The eight-entry count the engine takes in a buffer that wraps the
      torus is the number of live neighbours on the torus. */
  lemma TorusCount(b: Grid, g: Grid, rows: nat, cols: nat, i: nat, j: nat)
    requires IsShape(b, rows + 2, cols + 2) && IsShape(g, rows, cols)
    requires i < rows && j < cols
    requires WrapsTorus(b, g, rows, cols)
    ensures CountTrue(NeighbourList(b, rows, cols, i + 1, j + 1))
         == |LiveNeighbours(g, rows, cols, i, j)|
  {
    var ns := NeighbourList(b, rows, cols, i + 1, j + 1);
    var live := LiveNeighbours(g, rows, cols, i, j);
    var flags := seq(8, k requires 0 <= k < 8 => Positions(i, j)[k] in live);
    forall k | 0 <= k < 8 ensures ns[k] == flags[k] {
      TorusFlag(b, g, rows, cols, i, j, k);
    }
    assert ns == flags;
    CountWindow(i, j, live);
  }

  /** Entry k of the neighbour list read from a wrapping buffer says whether
      the k-th neighbour position is a live torus neighbour. */
  lemma TorusFlag(b: Grid, g: Grid, rows: nat, cols: nat, i: nat, j: nat, k: nat)
    requires IsShape(b, rows + 2, cols + 2) && IsShape(g, rows, cols)
    requires i < rows && j < cols && k < 8
    requires WrapsTorus(b, g, rows, cols)
    ensures NeighbourList(b, rows, cols, i + 1, j + 1)[k]
         == (Positions(i, j)[k] in LiveNeighbours(g, rows, cols, i, j))
  {
    var p := Positions(i, j)[k];
    assert p == (i + RowOffsets[k], j + ColOffsets[k]);
    assert p in Window(i, j);
    WrapsTorusAt(b, g, rows, cols, p.0 + 1, p.1 + 1);
  }

  lemma WrapsTorusAt(b: Grid, g: Grid, rows: nat, cols: nat, a: nat, c: nat)
    requires IsShape(b, rows + 2, cols + 2) && IsShape(g, rows, cols)
    requires rows > 0 && cols > 0 && a < rows + 2 && c < cols + 2
    requires WrapsTorus(b, g, rows, cols)
    ensures b[a][c] == TorusAt(g, rows, cols, a - 1, c - 1)
  {
  }

  /** One engine generation from a buffer that wraps the torus computes, in
      the interior, one torus generation. */
  lemma PaddedStepOnTorus(b: Grid, g: Grid, rows: nat, cols: nat)
    requires IsShape(b, rows + 2, cols + 2) && IsShape(g, rows, cols)
    requires rows > 0 && cols > 0
    requires WrapsTorus(b, g, rows, cols)
    ensures Interior(PaddedStep(b, rows, cols), rows, cols) == Step(g, rows, cols)
  {
    var m := Interior(PaddedStep(b, rows, cols), rows, cols);
    var s := Step(g, rows, cols);
    forall i | 0 <= i < rows ensures m[i] == s[i] {
      forall j | 0 <= j < cols ensures m[i][j] == s[i][j] {
        PaddedStepOnTorusAt(b, g, rows, cols, i, j);
      }
    }
  }

  lemma PaddedStepOnTorusAt(b: Grid, g: Grid, rows: nat, cols: nat, i: nat, j: nat)
    requires IsShape(b, rows + 2, cols + 2) && IsShape(g, rows, cols)
    requires i < rows && j < cols
    requires WrapsTorus(b, g, rows, cols)
    ensures PaddedStep(b, rows, cols)[i + 1][j + 1] == Step(g, rows, cols)[i][j]
  {
    TorusCount(b, g, rows, cols, i, j);
    assert b[i + 1][j + 1] == TorusAt(g, rows, cols, i, j) == g[i][j];
    assert Step(g, rows, cols)[i][j] == Conway(g[i][j], |LiveNeighbours(g, rows, cols, i, j)|);
  }

  /** One engine generation preserves wrapping: from a buffer that wraps the
      torus `g`, it yields a buffer, border included, that wraps one torus
      generation of `g`. */
  lemma PeriodicStepWraps(b: Grid, g: Grid, rows: nat, cols: nat)
    requires IsShape(b, rows + 2, cols + 2) && IsShape(g, rows, cols)
    requires rows > 0 && cols > 0
    requires WrapsTorus(b, g, rows, cols)
    ensures WrapsTorus(PeriodicStep(b, rows, cols), Step(g, rows, cols), rows, cols)
  {
    var n := PaddedStep(b, rows, cols);
    var s := Step(g, rows, cols);
    PaddedStepOnTorus(b, g, rows, cols);
    forall a, c | 0 <= a < rows + 2 && 0 <= c < cols + 2
      ensures Refresh(n, rows, cols)[a][c] == TorusAt(s, rows, cols, a - 1, c - 1)
    {
      RefreshedInteriorAt(n, s, rows, cols, a, c);
    }
  }

  /** A refreshed buffer whose interior is `s` holds, at every position, the
      torus cell of `s` at that position minus one. */
  lemma RefreshedInteriorAt(n: Grid, s: Grid, rows: nat, cols: nat, a: nat, c: nat)
    requires IsShape(n, rows + 2, cols + 2) && IsShape(s, rows, cols)
    requires rows > 0 && cols > 0 && a < rows + 2 && c < cols + 2
    requires Interior(n, rows, cols) == s
    ensures Refresh(n, rows, cols)[a][c] == TorusAt(s, rows, cols, a - 1, c - 1)
  {
    RefreshWrapsAt(n, rows, cols, a, c);
    WrapIndex(a, rows);
    WrapIndex(c, cols);
    var a', c' := Wrap(a, rows), Wrap(c, cols);
    assert n[a'][c'] == Interior(n, rows, cols)[a' - 1][c' - 1];
  }

  /** Any number of engine generations from a buffer that wraps `g` yields a
      buffer that wraps the same number of torus generations of `g`. */
  lemma {:induction false} PeriodicGenerationsWrap(b: Grid, g: Grid, rows: nat, cols: nat, k: nat)
    requires IsShape(b, rows + 2, cols + 2) && IsShape(g, rows, cols)
    requires rows > 0 && cols > 0
    requires WrapsTorus(b, g, rows, cols)
    ensures WrapsTorus(PeriodicGenerations(b, rows, cols, k), Generations(g, rows, cols, k), rows, cols)
  {
    var n := 0;
    while n < k
      invariant n <= k
      invariant WrapsTorus(PeriodicGenerations(b, rows, cols, n), Generations(g, rows, cols, n), rows, cols)
    {
      PeriodicStepWraps(PeriodicGenerations(b, rows, cols, n), Generations(g, rows, cols, n), rows, cols);
      n := n + 1;
    }
  }

  /** The interior of a buffer that wraps `g` is `g`. */
  lemma WrapsInterior(b: Grid, g: Grid, rows: nat, cols: nat)
    requires IsShape(b, rows + 2, cols + 2) && IsShape(g, rows, cols)
    requires rows > 0 && cols > 0
    requires WrapsTorus(b, g, rows, cols)
    ensures Interior(b, rows, cols) == g
  {
    var m := Interior(b, rows, cols);
    forall i | 0 <= i < rows ensures m[i] == g[i] {
      forall j | 0 <= j < cols ensures m[i][j] == g[i][j] {
        assert m[i][j] == b[i + 1][j + 1] == TorusAt(g, rows, cols, i, j);
        WrapIndex(i + 1, rows);
        WrapIndex(j + 1, cols);
      }
    }
  }

  /** Running the engine for k generations from the grid's refreshed
      embedding leaves k torus generations of the grid in the interior. */
  lemma PeriodicEngineIsGenerations(g: Grid, rows: nat, cols: nat, k: nat)
    requires IsShape(g, rows, cols)
    ensures Interior(PeriodicGenerations(Wrapped(g, rows, cols), rows, cols, k), rows, cols)
         == Generations(g, rows, cols, k)
  {
    var b := PeriodicGenerations(Wrapped(g, rows, cols), rows, cols, k);
    var h := Generations(g, rows, cols, k);
    if rows > 0 && cols > 0 {
      WrappedWrapsTorus(g, rows, cols);
      PeriodicGenerationsWrap(Wrapped(g, rows, cols), g, rows, cols, k);
      WrapsInterior(b, h, rows, cols);
    } else {
      var m := Interior(b, rows, cols);
      forall i | 0 <= i < rows ensures m[i] == h[i] {
        assert |m[i]| == |h[i]| == 0;
      }
    }
  }

  /** The interior of the buffer after k engine generations from the grid's
      refreshed embedding. */
  function RunEngine(g: Grid, rows: nat, cols: nat, k: nat): (r: Grid)
    requires IsShape(g, rows, cols)
    ensures r == Generations(g, rows, cols, k)
  {
    PeriodicEngineIsGenerations(g, rows, cols, k);
    Interior(PeriodicGenerations(Wrapped(g, rows, cols), rows, cols, k), rows, cols)
  }

  /** The engine entry point: a grid without rows, a ragged grid or a step
      count below 1 is rejected, in that order; otherwise the result is the
      interior of the buffer after nsteps - 1 engine generations, which is
      nsteps - 1 torus generations. */
  function LifePeriodic(initial: Grid, nsteps: int): (r: Result<Grid>)
    ensures |initial| == 0 <==> r == Err(EmptyGrid)
    ensures |initial| > 0 && !Rectangular(initial) <==> r == Err(RaggedGrid)
    ensures |initial| > 0 && Rectangular(initial) && nsteps < 1 <==> r == Err(NonPositiveSteps)
    ensures |initial| > 0 && Rectangular(initial) && nsteps == 1 ==> r == Ok(initial)
    ensures |initial| > 0 && Rectangular(initial) && nsteps >= 1 ==> r.Ok?
    ensures r.Ok? ==> nsteps >= 1 && IsShape(r.value, |initial|, Width(initial))
    ensures r.Ok? ==> r.value == Generations(initial, |initial|, Width(initial), nsteps - 1)
  {
    if |initial| == 0 then Err(EmptyGrid)
    else if !Rectangular(initial) then Err(RaggedGrid)
    else if nsteps < 1 then Err(NonPositiveSteps)
    else
      Ok(RunEngine(initial, |initial|, Width(initial), nsteps - 1))
  }
}
