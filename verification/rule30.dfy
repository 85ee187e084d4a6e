/** Wolfram's elementary cellular automaton rule 30 on a row of L cells, with
    either dead cells beyond both ends or periodic (wrap-around) ends. */
module Rule30 {
  import opened Lattice

  /** The rule-30 lookup table: the next value of the centre cell for each
      of the eight (left, centre, right) patterns. The match is exhaustive,
      so the table is total, and every entry is `left XOR (centre OR right)`,
      the closed form that gives the rule its number 30 = 0b00011110. */
  function Rule(left: bool, centre: bool, right: bool): (next: bool)
    ensures next == (left != (centre || right))
  {
    match (left, centre, right)
    case (true, true, true) => false
    case (true, true, false) => false
    case (true, false, true) => false
    case (true, false, false) => true
    case (false, true, true) => true
    case (false, true, false) => true
    case (false, false, true) => true
    case (false, false, false) => false
  }

  /** The value at position `j` of a row whose cells beyond both ends are dead. */
  function DeadBeyond(s: seq<bool>, j: int): bool {
    0 <= j < |s| && s[j]
  }

  /** Cell i of the next generation, computed as the engine does: an
      interior cell 1 .. L-2 from its three neighbours, cells 0 and L-1
      under the boundary policy. Without wrap-around that reads positions
      -1 and L as dead; with it, the neighbours are cells i - 1 and i + 1
      taken mod L. */
  function NextCell(s: seq<bool>, i: nat, periodic: bool): (next: bool)
    requires 2 <= |s| && i < |s|
    ensures !periodic ==> next == Rule(DeadBeyond(s, i - 1), s[i], DeadBeyond(s, i + 1))
    ensures periodic ==> next == Rule(s[(i - 1) % |s|], s[i], s[(i + 1) % |s|])
  {
    WrapIndices(|s|, i);
    ModIsRemainder(i - 1, |s|);
    ModIsRemainder(i + 1, |s|);
    var last := |s| - 1;
    if 1 <= i < last then Rule(s[i - 1], s[i], s[i + 1])
    else if i == 0 then
      (if periodic then Rule(s[last], s[0], s[1]) else Rule(false, s[0], s[1]))
    else
      (if periodic then Rule(s[last - 1], s[last], s[0]) else Rule(s[last - 1], s[last], false))
  }

  /** One transition: a new row whose every cell is computed from the
      previous row `s`, which is only read, by the engine's case split;
      `StepNatural` states the boundary policies this amounts to. */
  function Step(s: seq<bool>, periodic: bool): (r: seq<bool>)
    requires |s| >= 2
    ensures |r| == |s|
    ensures forall i | 0 <= i < |s| :: r[i] == NextCell(s, i, periodic)
  {
    seq(|s|, i requires 0 <= i < |s| => NextCell(s, i, periodic))
  }

  /** The whole-row form of `NextCell`'s contract: a transition follows the
      natural statement of the two boundary policies at every cell. Without
      wrap-around the cells at positions -1 and L are dead; with it, the
      neighbours of cell i are cells i - 1 and i + 1 taken mod L. */
  lemma StepNatural(s: seq<bool>)
    requires |s| >= 2
    ensures forall i | 0 <= i < |s| ::
      Step(s, false)[i] == Rule(DeadBeyond(s, i - 1), s[i], DeadBeyond(s, i + 1))
    ensures forall i | 0 <= i < |s| ::
      Step(s, true)[i] == Rule(s[(i - 1) % |s|], s[i], s[(i + 1) % |s|])
  {
    forall i | 0 <= i < |s|
      ensures Step(s, false)[i] == Rule(DeadBeyond(s, i - 1), s[i], DeadBeyond(s, i + 1))
      ensures Step(s, true)[i] == Rule(s[(i - 1) % |s|], s[i], s[(i + 1) % |s|])
    {
      assert Step(s, false)[i] == NextCell(s, i, false);
      assert Step(s, true)[i] == NextCell(s, i, true);
    }
  }

  /** Periodic neighbour positions of cell i, i.e. i - 1 and i + 1 mod n. */
  lemma WrapIndices(n: nat, i: nat)
    requires 2 <= n && i < n
    ensures Mod(i - 1, n) == if i == 0 then n - 1 else i - 1
    ensures Mod(i + 1, n) == if i == n - 1 then 0 else i + 1
  {
    if i == 0 {
      assert Mod(-1, n) == Mod(n - 1, n);
    }
    if i == n - 1 {
      assert Mod(n, n) == Mod(0, n);
    }
  }

  /** `k` successive transitions. */
  function Iterate(s: seq<bool>, k: nat, periodic: bool): (r: seq<bool>)
    requires |s| >= 2
    ensures |r| == |s|
  {
    if k == 0 then s else Step(Iterate(s, k - 1, periodic), periodic)
  }

  /** The engine entry point. Generation 0 is the given row and the loop
      runs while the step counter is at most nsteps - 2, so the result is
      the row after nsteps - 1 transitions. A count below 1 leaves no
      generation 0 to return, and a row shorter than 2 cannot be indexed at
      positions 0 and 1 once a transition runs. */
  function RuleThirty(initial: seq<bool>, nsteps: int, periodic: bool): (r: Result<seq<bool>>)
    ensures nsteps < 1 <==> r == Err(NonPositiveSteps)
    ensures nsteps >= 2 && |initial| < 2 <==> r == Err(LatticeTooShort)
    ensures nsteps == 1 ==> r == Ok(initial)
    ensures nsteps >= 1 && (nsteps == 1 || |initial| >= 2) ==> r.Ok?
    ensures r.Ok? ==> |r.value| == |initial|
    ensures r.Ok? && nsteps >= 2 ==>
      |initial| >= 2 && r.value == Step(Iterate(initial, nsteps - 2, periodic), periodic)
  {
    if nsteps < 1 then Err(NonPositiveSteps)
    else if nsteps == 1 then Ok(initial)
    else if |initial| < 2 then Err(LatticeTooShort)
    else Ok(Iterate(initial, nsteps - 1, periodic))
  }

  /** The generation loop of the engine, written as the loop over steps and
      over cells it is; it yields exactly what `RuleThirty` describes. */
  method RunRuleThirty(initial: seq<bool>, nsteps: int, periodic: bool) returns (r: Result<seq<bool>>)
    ensures r == RuleThirty(initial, nsteps, periodic)
  {
    if nsteps < 1 {
      return Err(NonPositiveSteps);
    }
    if nsteps >= 2 && |initial| < 2 {
      return Err(LatticeTooShort);
    }
    var current := initial;
    var step := 0;
    while step <= nsteps - 2
      invariant 0 <= step <= nsteps - 1
      invariant step > 0 ==> |initial| >= 2
      invariant |initial| >= 2 ==> current == Iterate(initial, step, periodic)
      invariant |initial| < 2 ==> current == initial
    {
      current := StepCells(current, periodic);
      step := step + 1;
      assert current == Iterate(initial, step, periodic);
    }
    return Ok(current);
  }

  /** One transition written as the engine's loop over the interior cells
      followed by the two boundary cells. */
  method StepCells(s: seq<bool>, periodic: bool) returns (next: seq<bool>)
    requires |s| >= 2
    ensures next == Step(s, periodic)
  {
    var last := |s| - 1;
    next := s;
    var i := 1;
    while i < last
      invariant 1 <= i <= last
      invariant |next| == |s|
      invariant forall k | 1 <= k < i :: next[k] == NextCell(s, k, periodic)
    {
      next := next[i := Rule(s[i - 1], s[i], s[i + 1])];
      i := i + 1;
    }
    if periodic {
      next := next[0 := Rule(s[last], s[0], s[1])];
      next := next[last := Rule(s[last - 1], s[last], s[0])];
    } else {
      next := next[0 := Rule(false, s[0], s[1])];
      next := next[last := Rule(s[last - 1], s[last], false)];
    }
    assert next[0] == NextCell(s, 0, periodic);
    assert next[last] == NextCell(s, last, periodic);
    StepFromCells(s, periodic, next);
  }

  /** A row that agrees with the engine's case split at every cell is the
      transition. */
  lemma StepFromCells(s: seq<bool>, periodic: bool, next: seq<bool>)
    requires |s| >= 2 && |next| == |s|
    requires forall k | 0 <= k < |s| :: next[k] == NextCell(s, k, periodic)
    ensures next == Step(s, periodic)
  {
  }

  /** Iterating composes: a runs followed by b runs is a + b runs. */
  lemma {:induction false} IterateAdd(s: seq<bool>, a: nat, b: nat, periodic: bool)
    requires |s| >= 2
    ensures Iterate(Iterate(s, a, periodic), b, periodic) == Iterate(s, a + b, periodic)
    decreases b
  {
    if b > 0 {
      IterateAdd(s, a, b - 1, periodic);
    }
  }

  /** Running the engine for a + b + 1 generations is running it for a + 1
      generations and then applying b more transitions to its result. */
  lemma RuleThirtyResumes(initial: seq<bool>, a: nat, b: nat, periodic: bool)
    requires |initial| >= 2
    ensures RuleThirty(initial, a + 1, periodic).Ok?
    ensures RuleThirty(initial, a + b + 1, periodic)
         == Ok(Iterate(RuleThirty(initial, a + 1, periodic).value, b, periodic))
  {
    RuleThirtyIsIterate(initial, a + 1, periodic);
    RuleThirtyIsIterate(initial, a + b + 1, periodic);
    IterateAdd(initial, a, b, periodic);
  }

  /** A successful run is nsteps - 1 transitions of the initial row. */
  lemma RuleThirtyIsIterate(initial: seq<bool>, nsteps: int, periodic: bool)
    requires |initial| >= 2 && nsteps >= 1
    ensures RuleThirty(initial, nsteps, periodic) == Ok(Iterate(initial, nsteps - 1, periodic))
  {
  }

  /** Under either boundary policy, an interior cell of a transition reads
      nothing but the three cells around it: two rows that agree on i-1, i,
      i+1 give the same cell i. */
  lemma StepIsLocal(s: seq<bool>, t: seq<bool>, i: nat, periodic: bool)
    requires |s| == |t| >= 2 && 1 <= i < |s| - 1
    requires s[i - 1] == t[i - 1] && s[i] == t[i] && s[i + 1] == t[i + 1]
    ensures Step(s, periodic)[i] == Step(t, periodic)[i]
  {
  }

  /** The documented examples hold of the one-step function: one transition
      of [F, T, F] and three transitions of [F, F, T, F, F]. */
  lemma DocExamplesAsTransitions()
    ensures Iterate([false, true, false], 1, false) == [true, true, true]
    ensures Iterate([false, false, true, false, false], 3, false) == [true, false, true, true, true]
  {
    var s := [false, false, true, false, false];
    var s1 := [false, true, true, true, false];
    var s2 := [true, true, false, false, true];
    assert Step(s, false) == s1;
    assert Step(s1, false) == s2;
    assert Step(s2, false) == [true, false, true, true, true];
    assert Step([false, true, false], false) == [true, true, true];
  }

  /** The engine entry point counts nsteps - 1 transitions, so for the
      documented arguments it does not return the documented values. */
  lemma DocExamplesUnderEngineCount()
    ensures RuleThirty([false, true, false], 1, false) == Ok([false, true, false])
    ensures RuleThirty([false, false, true, false, false], 3, false) == Ok([true, true, false, false, true])
    ensures RuleThirty([false, true, false], 1, false) != Ok([true, true, true])
    ensures RuleThirty([false, false, true, false, false], 3, false) != Ok([true, false, true, true, true])
  {
    var s := [false, false, true, false, false];
    var s1 := [false, true, true, true, false];
    assert Step(s, false) == s1;
    assert Step(s1, false) == [true, true, false, false, true];
    assert [true, true, false, false, true][1] != [true, false, true, true, true][1];
  }
}
