/** Shared vocabulary of the automata engines: the error outcomes, rectangular
    boolean grids, the one-cell padding used by both Game of Life engines, the
    eight-entry neighbour list they read from a padded buffer, and the Conway
    survive/birth rule. */
module Lattice {

  /** The ways an engine call can fail before producing a lattice. */
  datatype Error =
    | NonPositiveSteps   // nsteps < 1: a negative count is no array dimension, and 0 leaves no generation 0
    | LatticeTooShort    // rule 30 needs positions 0 and 1 to exist once a transition runs
    | EmptyGrid          // a Life grid with no rows is one-dimensional, so it has no column count
    | RaggedGrid         // the rows of a Life grid do not all have the same length

  datatype Result<T> = Ok(value: T) | Err(error: Error)

  /** A 2-D lattice, stored row by row. */
  type Grid = seq<seq<bool>>

  predicate IsShape(g: Grid, rows: nat, cols: nat) {
    |g| == rows && forall i | 0 <= i < rows :: |g[i]| == cols
  }

  /** Number of columns, read from the first row as a 2-D array's shape would be. */
  function Width(g: Grid): nat {
    if |g| == 0 then 0 else |g[0]|
  }

  predicate Rectangular(g: Grid) {
    IsShape(g, |g|, Width(g))
  }

  /** Number of `true` entries of a list, as Python's `list.count(True)`. */
  function CountTrue(s: seq<bool>): (n: nat)
    ensures n <= |s|
    ensures n == 0 <==> forall k | 0 <= k < |s| :: !s[k]
    ensures n == |s| <==> forall k | 0 <= k < |s| :: s[k]
  {
    if |s| == 0 then 0 else (if s[0] then 1 else 0) + CountTrue(s[1..])
  }

  /** Conway's rule for one cell: a live cell survives on 2 or 3 live
      neighbours, a dead cell is born on exactly 3. */
  function Conway(alive: bool, n: nat): (next: bool)
    ensures next <==> n == 3 || (alive && n == 2)
    ensures alive ==> (next <==> n == 2 || n == 3)
    ensures !alive ==> (next <==> n == 3)
  {
    if alive then n == 2 || n == 3 else n == 3
  }

  /** Row and column offsets of the eight neighbours, in the order the
      engines list them: the row above (left to right), the left and right
      cells, the row below (left to right). */
  const RowOffsets: seq<int> := [-1, -1, -1, 0, 0, 1, 1, 1]
  const ColOffsets: seq<int> := [-1, 0, 1, -1, 1, -1, 0, 1]

  /** The eight cells surrounding interior cell (i, j) of a padded buffer. */
  function NeighbourList(b: Grid, rows: nat, cols: nat, i: nat, j: nat): (ns: seq<bool>)
    requires IsShape(b, rows + 2, cols + 2)
    requires 1 <= i <= rows && 1 <= j <= cols
    ensures |ns| == 8
    ensures forall k | 0 <= k < 8 :: ns[k] == b[i + RowOffsets[k]][j + ColOffsets[k]]
  {
    [b[i - 1][j - 1], b[i - 1][j], b[i - 1][j + 1],
     b[i][j - 1],                  b[i][j + 1],
     b[i + 1][j - 1], b[i + 1][j], b[i + 1][j + 1]]
  }

  predicate IsBorder(rows: nat, cols: nat, a: int, c: int) {
    a == 0 || a == rows + 1 || c == 0 || c == cols + 1
  }

  /** Every border cell of a padded buffer is dead. */
  predicate DeadBorder(b: Grid, rows: nat, cols: nat)
    requires IsShape(b, rows + 2, cols + 2)
  {
    forall a, c | 0 <= a < rows + 2 && 0 <= c < cols + 2 && IsBorder(rows, cols, a, c) :: !b[a][c]
  }

  /** The rows x cols region of a padded buffer that starts at offset (1, 1). */
  function Interior(b: Grid, rows: nat, cols: nat): (g: Grid)
    requires IsShape(b, rows + 2, cols + 2)
    ensures IsShape(g, rows, cols)
    ensures forall i, j | 0 <= i < rows && 0 <= j < cols :: g[i][j] == b[i + 1][j + 1]
  {
    seq(rows, i requires 0 <= i < rows => b[i + 1][1 .. cols + 1])
  }

  /** `g` placed at offset (1, 1) of an all-dead (rows+2) x (cols+2) buffer. */
  function Embed(g: Grid, rows: nat, cols: nat): (b: Grid)
    requires IsShape(g, rows, cols)
    ensures IsShape(b, rows + 2, cols + 2)
    ensures DeadBorder(b, rows, cols)
    ensures Interior(b, rows, cols) == g
  {
    var b := seq(rows + 2, a requires 0 <= a < rows + 2 =>
      seq(cols + 2, c requires 0 <= c < cols + 2 =>
        if IsBorder(rows, cols, a, c) then false else g[a - 1][c - 1]));
    assert Interior(b, rows, cols) == g by {
      var h := Interior(b, rows, cols);
      forall i | 0 <= i < rows ensures h[i] == g[i] {
        assert |h[i]| == |g[i]|;
        forall j | 0 <= j < cols ensures h[i][j] == g[i][j] {
          assert h[i][j] == b[i + 1][j + 1];
        }
      }
    }
    b
  }

  /** A dead-bordered buffer is the embedding of its own interior. */
  lemma EmbedInterior(b: Grid, rows: nat, cols: nat)
    requires IsShape(b, rows + 2, cols + 2)
    requires DeadBorder(b, rows, cols)
    ensures Embed(Interior(b, rows, cols), rows, cols) == b
  {
    var e := Embed(Interior(b, rows, cols), rows, cols);
    forall a | 0 <= a < rows + 2 ensures e[a] == b[a] {
      forall c | 0 <= c < cols + 2 ensures e[a][c] == b[a][c] {
        if !IsBorder(rows, cols, a, c) {
          assert e[a][c] == Interior(e, rows, cols)[a - 1][c - 1];
        }
      }
    }
  }

  /** One generation of Conway's rule computed in a padded buffer: every
      interior cell from the eight cells around it in `b`, written into a
      fresh all-dead buffer whose border is never written. */
  function PaddedStep(b: Grid, rows: nat, cols: nat): (r: Grid)
    requires IsShape(b, rows + 2, cols + 2)
    ensures IsShape(r, rows + 2, cols + 2)
    ensures DeadBorder(r, rows, cols)
    ensures forall i, j | 1 <= i <= rows && 1 <= j <= cols ::
      r[i][j] == Conway(b[i][j], CountTrue(NeighbourList(b, rows, cols, i, j)))
  {
    seq(rows + 2, a requires 0 <= a < rows + 2 =>
      seq(cols + 2, c requires 0 <= c < cols + 2 =>
        if IsBorder(rows, cols, a, c) then false
        else Conway(b[a][c], CountTrue(NeighbourList(b, rows, cols, a, c)))))
  }

  /** The eight positions surrounding (i, j): the 3 x 3 window around it
      without its centre. Positions are not reduced modulo anything, so on a
      small torus two of them may name the same cell and both count. */
  function Window(i: int, j: int): set<(int, int)> {
    set a, c | i - 1 <= a <= i + 1 && j - 1 <= c <= j + 1 && (a != i || c != j) :: (a, c)
  }

  /** The positions of the neighbour list, in its order. */
  function Positions(i: int, j: int): (ps: seq<(int, int)>)
    ensures |ps| == 8
    ensures forall k | 0 <= k < 8 :: ps[k] == (i + RowOffsets[k], j + ColOffsets[k])
  {
    [(i - 1, j - 1), (i - 1, j), (i - 1, j + 1),
     (i, j - 1),                 (i, j + 1),
     (i + 1, j - 1), (i + 1, j), (i + 1, j + 1)]
  }

  predicate Distinct<T(==)>(ps: seq<T>) {
    forall k, m | 0 <= k < m < |ps| :: ps[k] != ps[m]
  }

  /** The neighbour list visits each position of the window exactly once. */
  lemma PositionsEnumerateWindow(i: int, j: int)
    ensures Distinct(Positions(i, j))
    ensures forall p :: p in Window(i, j) <==> p in Positions(i, j)
  {
  }

  /** Counting the members of `live` along a list of distinct positions gives
      the number of those positions that are in `live`. */
  lemma {:induction false} CountAlongDistinct(ps: seq<(int, int)>, live: set<(int, int)>)
    requires Distinct(ps)
    ensures CountTrue(seq(|ps|, k requires 0 <= k < |ps| => ps[k] in live))
         == |set p | p in ps && p in live|
  {
    var flags := seq(|ps|, k requires 0 <= k < |ps| => ps[k] in live);
    if |ps| > 0 {
      var rest := ps[1..];
      assert Distinct(rest);
      CountAlongDistinct(rest, live);
      assert flags[1..] == seq(|rest|, k requires 0 <= k < |rest| => rest[k] in live);
      var tail := set p | p in rest && p in live;
      var here: set<(int, int)> := if ps[0] in live then {ps[0]} else {};
      assert ps[0] !in rest;
      assert (set p | p in ps && p in live) == here + tail;
      assert here !! tail;
    }
  }

  /** For any set of live positions inside the window of (i, j), counting
      along the neighbour list gives the size of that set. */
  lemma CountWindow(i: int, j: int, live: set<(int, int)>)
    requires live <= Window(i, j)
    ensures CountTrue(seq(8, k requires 0 <= k < 8 => Positions(i, j)[k] in live)) == |live|
  {
    var ps := Positions(i, j);
    PositionsEnumerateWindow(i, j);
    CountAlongDistinct(ps, live);
    assert (set p | p in ps && p in live) == live;
  }

  /** `a` reduced modulo `n`: the representative in 0 .. n-1 of a's class.
      It equals `a % n` (`ModIsRemainder`); the torus model indexes with it
      because its case-by-case recursion keeps the toroidal proofs cheap,
      while the rule-30 contracts use `%`, which is cheaper there. */
  function Mod(a: int, n: nat): (r: nat)
    requires n > 0
    ensures r < n
    decreases if a < 0 then n - a else a
  {
    if a < 0 then Mod(a + n, n) else if a >= n then Mod(a - n, n) else a
  }

  /** The number of times `Mod` adds or removes n on the way to its result. */
  function Quot(a: int, n: nat): int
    requires n > 0
    decreases if a < 0 then n - a else a
  {
    if a < 0 then Quot(a + n, n) - 1 else if a >= n then Quot(a - n, n) + 1 else 0
  }

  lemma {:induction false} ModDivides(a: int, n: nat)
    requires n > 0
    ensures a == Quot(a, n) * n + Mod(a, n)
    decreases if a < 0 then n - a else a
  {
    if a < 0 {
      ModDivides(a + n, n);
      assert (Quot(a + n, n) - 1) * n == Quot(a + n, n) * n - n;
    } else if a >= n {
      ModDivides(a - n, n);
      assert (Quot(a - n, n) + 1) * n == Quot(a - n, n) * n + n;
    }
  }

  /** `Mod` is the remainder of floored division: Python's `%` for a
      positive divisor, which is also Dafny's `%`. */
  lemma ModIsRemainder(a: int, n: nat)
    requires n > 0
    ensures Mod(a, n) == a % n
  {
    ModDivides(a, n);
    RemainderUnique(a, n, Quot(a, n), Mod(a, n));
  }

  /** The remainder of a by n is the r of any a == q * n + r with 0 <= r < n. */
  lemma RemainderUnique(a: int, n: nat, q: int, r: int)
    requires n > 0 && 0 <= r < n && a == q * n + r
    ensures a % n == r
  {
    var q', r' := a / n, a % n;
    assert a == q' * n + r';
    assert (q - q') * n == r' - r;
    if q > q' {
      MulAtLeast(q - q', n);
    } else if q < q' {
      MulAtLeast(q' - q, n);
    }
  }

  lemma {:induction false} MulAtLeast(k: int, n: nat)
    requires k >= 1 && n > 0
    ensures k * n >= n
    decreases k
  {
    if k > 1 {
      MulAtLeast(k - 1, n);
      assert k * n == (k - 1) * n + n;
    }
  }
}
