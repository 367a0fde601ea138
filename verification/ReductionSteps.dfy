/** The basis reduction as a state machine: what its variables hold at each point of the loop body,
    and why each step leads from one such point to the next. */
module ReductionSteps {
  import opened Vectors
  import opened Widths
  import opened Tableau
  import opened TabLp
  import opened FixedValue
  import opened ReductionInvariant

  /** The values of the basis, the widths, the indices and the LP; `stack` is its live part. */
  datatype State = State(
    dim: nat, nBounded: nat, base: nat, z0: nat,
    B: seq<Row>, F: seq<real>, z: nat, i: nat,
    con: seq<Con>, conOffset: nat, neq: nat, stack: seq<nat>)
  {
    ghost function P(): Poly { PolyOf(con, dim) }

    /** The stack position from which rows sit contiguously at the end of the list. */
    ghost function From(): nat
      requires z0 <= z && z0 <= i
    {
      (if z < i then z else i) - z0
    }
  }

  ghost predicate Sized(s: State) {
    && |s.B| == s.dim
    && |s.F| == s.nBounded <= s.dim
    && s.z0 <= s.z <= s.nBounded && s.z <= s.i + 2
    && s.z0 <= s.i < s.nBounded
    && (forall k :: 0 <= k < |s.B| ==> |s.B[k]| == s.dim)
    && s.z0 <= s.base <= s.conOffset <= s.base + 2 * (s.z - s.z0)
    && s.neq == |s.stack| == s.i - s.z0
  }

  /** What holds at every point of the loop. */
  ghost predicate Core(s: State) {
    && Sized(s)
    && Symmetric(s.con)
    && RowsStacked(s.con, s.conOffset, s.B, s.z0, s.z, s.i)
    && Snapshots(s.stack, s.conOffset, s.neq, s.From())
    && s.P() != iset{}
    && BoundedRows(s.P(), s.B, s.nBounded)
    && ZeroRows(s.P(), s.B, s.F, s.z0, s.z)
    && WidthsKnown(s.P(), s.B, s.F, s.z0, s.i)
  }

  /** At the head of the loop: if the last step backed up, the saved value and multipliers are those
      of the LP that would be solved now. */
  ghost predicate Head(s: State, useSaved: bool, FSaved: real, saved: seq<real>) {
    && Core(s) && s.z <= s.i + 1
    && |saved| == s.nBounded
    && (useSaved ==>
          && s.i + 1 < s.nBounded && s.z <= s.i
          && Optimal(s.P(), s.B[s.z0..s.i + 1], saved[s.z0..s.i + 1], s.B[s.i + 1], FSaved))
  }

  /** At every loop head the LP holds exactly rows z0..i, neq counts them, and the constraints are those
      before con_offset and the rows; every width up to row i is true; and a pop goes back to a place
      behind all cuts. */
  lemma AtHead(s: State, useSaved: bool, FSaved: real, saved: seq<real>)
    requires Head(s, useSaved, FSaved, saved)
    ensures RowsOf(s.con) == s.B[s.z0..s.i] && s.neq == s.i - s.z0 && |s.con| == s.conOffset + s.neq
    ensures forall k :: s.z0 <= k <= s.i ==> IsWidth(s.P(), s.B[s.z0..k], s.B[k], s.F[k])
    ensures s.z < s.i ==>
              && s.neq > 0 && s.stack[s.neq - 1] == |s.con| - 1 >= s.conOffset
              && s.con[|s.con| - 1] == RowEq(s.B[s.i - 1])
  {
    hide IsWidth, PolyOf, ZeroRows, BoundedRows;
    if s.z < s.i {
      PopRow(s.con, s.conOffset, s.B, s.z0, s.z, s.i);
    }
  }

  /** After line 182: the width of row i + 1 given the rows up to i, and the multiplier of row i. */
  ghost predicate Evaluated(s: State, FNew: real, alpha: real, saved: seq<real>) {
    && Core(s) && s.z <= s.i + 1 < s.nBounded
    && |saved| == s.nBounded
    && s.F[s.i + 1] == FNew
    && if s.i + 1 == s.z then
         alpha == 0.0 && IsWidth(s.P(), s.B[s.z0..s.i], s.B[s.i + 1], FNew)
       else
         Optimal(s.P(), s.B[s.z0..s.i + 1], saved[s.z0..s.i] + [alpha], s.B[s.i + 1], FNew)
  }

  /** After line 218: row i + 1 is as narrow as a multiple of row i can make it. */
  ghost predicate Combined(s: State, FNew: real, saved: seq<real>) {
    && Core(s) && s.z <= s.i + 1 < s.nBounded
    && |saved| == s.nBounded
    && IsWidth(s.P(), s.B[s.z0..s.i + 1], s.B[s.i + 1], s.F[s.i + 1])
    && IsWidth(s.P(), s.B[s.z0..s.i], s.B[s.i + 1], FNew)
    && (s.i + 1 == s.z ==> s.F[s.i + 1] == FNew)
    && (s.z <= s.i ==>
          && NoBetterMultiple(s.P(), s.B[s.z0..s.i], s.B[s.i], s.B[s.i + 1], FNew)
          && Optimal(s.P(), s.B[s.z0..s.i], saved[s.z0..s.i], s.B[s.i + 1], FNew))
  }

  /** After line 228: if row i was already a zero row, row i + 1 may have become one too. */
  ghost predicate CutDone(s: State, FNew: real, saved: seq<real>) {
    && Core(s) && s.i + 1 < s.nBounded
    && |saved| == s.nBounded
    && 0.0 <= FNew
    && IsWidth(s.P(), s.B[s.z0..s.i + 1], s.B[s.i + 1], s.F[s.i + 1])
    && (s.z <= s.i ==> Combined(s, FNew, saved))
  }

  lemma AnswerProbe(con: seq<Con>, dim: nat, obj: Row, answer: Solution, P: Poly, FNew: real, fixed: bool)
    requires Minimum(con, dim, obj, answer) && FNew == -answer.opt
    requires answer.x in P && answer.y in P
    requires fixed <==> LooksFixed(obj, answer.x, answer.y, -FNew)
    ensures ProbeOf(P, Probe(obj, answer.x, answer.y), FNew, fixed)
  {
  }

  lemma CoreSizes(s: State)
    requires Core(s)
    ensures Sized(s)
    ensures |s.con| == s.conOffset + s.neq
  {
  }

  lemma HeadSizes(s: State, useSaved: bool, FSaved: real, saved: seq<real>)
    requires Head(s, useSaved, FSaved, saved)
    ensures Core(s) && Sized(s) && s.z <= s.i + 1 && |saved| == s.nBounded
    ensures useSaved ==> s.z <= s.i
  {
  }

  lemma EvaluatedSizes(s: State, FNew: real, alpha: real, saved: seq<real>)
    requires Evaluated(s, FNew, alpha, saved)
    ensures Core(s) && Sized(s) && s.z <= s.i + 1 < s.nBounded && |saved| == s.nBounded
    ensures s.i + 1 == s.z ==> alpha == 0.0
    ensures s.F[s.i + 1] == FNew
  {
  }

  lemma CombinedSizes(s: State, FNew: real, saved: seq<real>)
    requires Combined(s, FNew, saved)
    ensures Core(s) && Sized(s) && s.z <= s.i + 1 < s.nBounded && |saved| == s.nBounded
    ensures 0.0 <= FNew
  {
    WidthNonNegative(s.P(), s.B[s.z0..s.i], s.B[s.i + 1], FNew);
  }

  lemma CombinedIsDone(s: State, FNew: real, saved: seq<real>)
    requires Combined(s, FNew, saved)
    ensures CutDone(s, FNew, saved)
  {
    hide IsWidth;
    CombinedSizes(s, FNew, saved);
  }

  lemma CombinedZero(s: State, FNew: real, saved: seq<real>)
    requires Combined(s, FNew, saved) && s.i + 1 == s.z
    ensures IsWidth(s.P(), s.B[s.z0..s.i], s.B[s.i + 1], FNew) && s.F[s.i + 1] == FNew
  {
  }

  lemma ZeroRowIsDone(s: State, FNew: real, saved: seq<real>)
    requires Core(s) && s.i + 1 < s.nBounded && s.z == s.i + 2 && |saved| == s.nBounded && 0.0 <= FNew
    requires IsWidth(s.P(), s.B[s.z0..s.i + 1], s.B[s.i + 1], 0.0) && s.F[s.i + 1] == 0.0
    ensures CutDone(s, FNew, saved)
  {
  }

  /** Below n_zero the old width is zero, so there is no swap. */
  lemma CutDoneSizes(s: State, FNew: real, saved: seq<real>)
    requires CutDone(s, FNew, saved)
    ensures Sized(s) && |s.con| == s.conOffset + s.neq && s.i + 1 < s.nBounded && 0.0 <= FNew
    ensures |s.con| < s.base + 3 * s.dim + 1 && s.z0 <= s.i < |s.F|
    ensures s.i < s.z ==> s.F[s.i] == 0.0
    ensures s.z <= s.i ==> Combined(s, FNew, saved)
  {
    hide IsWidth;
  }

  lemma CoreIsHead(s: State, FSaved: real, saved: seq<real>)
    requires Core(s) && s.z <= s.i + 1 && |saved| == s.nBounded
    ensures Head(s, false, FSaved, saved)
  {
  }

  lemma CanSolveRow(s: State, k: nat)
    requires Core(s) && k < s.nBounded
    ensures Nonempty(s.con, s.dim) && BoundedBelow(s.con, s.dim, s.B[k])
    ensures |s.con| < s.base + 3 * s.dim + 1
  {
    CanSolve(s, s.B[k]);
  }

  // ----- The solver can be asked ------------------------------------------------------------------------

  lemma CanSolve(s: State, obj: Row)
    requires Core(s) && Bounded(s.P(), obj)
    ensures Nonempty(s.con, s.dim) && BoundedBelow(s.con, s.dim, obj)
    ensures |s.con| < s.base + 3 * s.dim + 1
  {
    hide IsWidth, Bounded;
    var x :| x in s.P();
    Solvable(s.con, s.dim, obj, x);
  }

  lemma CanSolveCombined(s: State, m: int)
    requires Core(s) && s.i + 1 < s.nBounded
    ensures Nonempty(s.con, s.dim) && BoundedBelow(s.con, s.dim, Combine(s.B[s.i + 1], m, s.B[s.i]))
    ensures |s.con| < s.base + 3 * s.dim + 1
  {
    hide IsWidth, Bounded;
    BoundedCombine(s.P(), s.B[s.i + 1], m, s.B[s.i]);
    CanSolve(s, Combine(s.B[s.i + 1], m, s.B[s.i]));
  }

  lemma CanSolvePushed(s: State)
    requires Core(s) && s.z <= s.i && s.i + 1 < s.nBounded
    ensures var con := s.con + [RowEq(s.B[s.i])];
            && Nonempty(con, s.dim) && BoundedBelow(con, s.dim, s.B[s.i + 1])
            && |con| < s.base + 3 * s.dim + 1
  {
    hide IsWidth, Bounded;
    var x :| x in s.P();
    PolyOfRow(s.con, s.dim, s.B[s.i]);
    Solvable(s.con + [RowEq(s.B[s.i])], s.dim, s.B[s.i + 1], x);
  }

  // ----- Evaluating row i + 1 -----------------------------------------------------------------------

  lemma WidthSet(s: State, FNew: real)
    requires Core(s) && s.z <= s.i + 1 < s.nBounded
    ensures Core(s.(F := s.F[s.i + 1 := FNew]))
  {
    var t := s.(F := s.F[s.i + 1 := FNew]);
    assert t.P() == s.P();
  }

  /** A solve with the rows z0..e on the stack gives the width given those rows. */
  lemma SolvedWidth(con: seq<Con>, dim: nat, conOffset: nat, B: seq<Row>, z0: nat, z: nat, e: nat,
                    obj: Row, answer: Solution)
    requires Symmetric(con) && RowsStacked(con, conOffset, B, z0, z, e)
    requires Minimum(con, dim, obj, answer)
    ensures IsWidth(PolyOf(con, dim), B[z0..e], obj, -answer.opt)
    ensures answer.x in PolyOf(con, dim) && answer.y in PolyOf(con, dim)
  {
    MinimumIsOptimal(con, dim, obj, answer);
    OptimalIsWidth(PolyOf(con, dim), RowsOf(con), AlphasOf(con, answer.dual), obj, -answer.opt);
  }

  /** Lines 151-158: with row i constant, no row is pushed. */
  lemma EvaluatedPlain(s: State, answer: Solution, saved: seq<real>)
    requires Core(s) && s.z == s.i + 1 < s.nBounded && |saved| == s.nBounded
    requires Minimum(s.con, s.dim, s.B[s.i + 1], answer)
    ensures Evaluated(s.(F := s.F[s.i + 1 := -answer.opt]), -answer.opt, 0.0, saved)
    ensures answer.x in s.P() && answer.y in s.P()
  {
    hide IsWidth, Minimum, PolyOf, ConstantOn;
    SolvedWidth(s.con, s.dim, s.conOffset, s.B, s.z0, s.z, s.i, s.B[s.i + 1], answer);
    WidthSet(s, -answer.opt);
  }

  /** Lines 160-164: taking the saved value and multipliers. */
  lemma EvaluatedSaved(s: State, FSaved: real, saved: seq<real>)
    requires Head(s, true, FSaved, saved)
    ensures Evaluated(s.(F := s.F[s.i + 1 := FSaved]), FSaved, saved[s.i], saved)
  {
    hide IsWidth, Optimal;
    WidthSet(s, FSaved);
    LastSplit(saved, s.z0, s.i);
  }

  lemma LastSplit<T>(xs: seq<T>, lo: nat, i: nat)
    requires lo <= i < |xs|
    ensures xs[lo..i + 1] == xs[lo..i] + [xs[i]]
  {
  }

  /** Lines 166-181: solving with row i pushed. */
  lemma EvaluatedSolved(s: State, answer: Solution, alpha: real, saved: seq<real>)
    requires Core(s) && s.z <= s.i && s.i + 1 < s.nBounded && |saved| == s.nBounded
    requires Minimum(s.con + [RowEq(s.B[s.i])], s.dim, s.B[s.i + 1], answer)
    requires alpha == -answer.dual[|s.con|]
    requires forall j :: s.z <= j < s.i ==> saved[j] == -answer.dual[s.conOffset + j - s.z0]
    ensures Evaluated(s.(F := s.F[s.i + 1 := -answer.opt]), -answer.opt, alpha, saved)
    ensures answer.x in s.P() && answer.y in s.P()
  {
    hide IsWidth, Optimal, Minimum, PolyOf, ConstantOn;
    SolvedPushed(s.con, s.dim, s.conOffset, s.B, s.z0, s.z, s.i, s.B[s.i + 1], answer, alpha, saved);
    WidthSet(s, -answer.opt);
  }

  lemma SolvedPushed(con: seq<Con>, dim: nat, conOffset: nat, B: seq<Row>, z0: nat, z: nat, i: nat,
                     obj: Row, answer: Solution, alpha: real, saved: seq<real>)
    requires Symmetric(con) && RowsStacked(con, conOffset, B, z0, z, i) && z <= i < |B|
    requires i <= |saved|
    requires Minimum(con + [RowEq(B[i])], dim, obj, answer)
    requires alpha == -answer.dual[|con|]
    requires forall j :: z <= j < i ==> saved[j] == -answer.dual[conOffset + j - z0]
    requires forall k :: z0 <= k < z ==> ConstantOn(PolyOf(con, dim), B[k])
    ensures Optimal(PolyOf(con, dim), B[z0..i + 1], saved[z0..i] + [alpha], obj, -answer.opt)
    ensures answer.x in PolyOf(con, dim) && answer.y in PolyOf(con, dim)
  {
    var pushed := con + [RowEq(B[i])];
    PushRow(con, conOffset, B, z0, z, i);
    PolyOfRow(con, dim, B[i]);
    var all := saved[..i] + [alpha];
    SavedIsOptimal(pushed, dim, obj, answer, conOffset, B, z0, z, i + 1, all);
    assert all[z0..] == saved[z0..i] + [alpha];
    MinimumIsOptimal(pushed, dim, obj, answer);
  }

  // ----- Adding the best multiple of row i -------------------------------------------------------------

  ghost function Sheared(s: State, m: int): State
    requires Sized(s) && s.i + 1 < |s.B|
  {
    s.(B := s.B[s.i + 1 := Combine(s.B[s.i + 1], m, s.B[s.i])])
  }

  lemma ShearKeepsCore(s: State, m: int)
    requires Core(s) && s.z <= s.i + 1 < s.nBounded
    ensures Core(Sheared(s, m))
  {
    hide IsWidth, NoBetterMultiple, Optimal;
    var t := Sheared(s, m);
    assert t.P() == s.P();
    assert t.B[..s.i] == s.B[..s.i];
    LaterRowsChanged(s.con, s.conOffset, s.B, t.B, s.z0, s.z, s.i);
    BoundedCombine(s.P(), s.B[s.i + 1], m, s.B[s.i]);
    forall k | s.z0 <= k <= s.i ensures IsWidth(t.P(), t.B[s.z0..k], t.B[k], t.F[k]) {
      assert t.B[s.z0..k] == s.B[s.z0..k];
    }
  }

  /** The width of row i + 1 given row i is not affected by the multiple that is added. */
  lemma ShearKeepsNext(P: Poly, B: seq<Row>, z0: nat, i: nat, m: int, FNew: real)
    requires z0 <= i && i + 1 < |B| && |B[i]| == |B[i + 1]|
    requires IsWidth(P, B[z0..i + 1], B[i + 1], FNew)
    ensures var c := Combine(B[i + 1], m, B[i]); IsWidth(P, B[i + 1 := c][z0..i + 1], c, FNew)
    ensures B[i + 1 := Combine(B[i + 1], m, B[i])][z0..i] == B[z0..i]
  {
    LastSplit(B, z0, i);
    ShearAlongRow(P, B[z0..i], B[i], B[i + 1], m, FNew);
    assert B[i + 1 := Combine(B[i + 1], m, B[i])][z0..i + 1] == B[z0..i + 1];
  }

  lemma EvaluatedWidth(s: State, FNew: real, alpha: real, saved: seq<real>)
    requires Evaluated(s, FNew, alpha, saved)
    ensures IsWidth(s.P(), s.B[s.z0..s.i + 1], s.B[s.i + 1], FNew)
  {
    if s.i + 1 == s.z {
      LastSplit(s.B, s.z0, s.i);
      ConstantRow(s.P(), s.B[s.z0..s.i], s.B[s.i], s.B[s.i + 1], FNew);
    } else {
      OptimalIsWidth(s.P(), s.B[s.z0..s.i + 1], saved[s.z0..s.i] + [alpha], s.B[s.i + 1], FNew);
    }
  }

  /** What an integer multiplier gives. */
  lemma ExactMultiple(P: Poly, B: seq<Row>, z0: nat, i: nat, saved: seq<real>, m: int, F: real)
    requires z0 <= i && i + 1 < |B| && |B[i]| == |B[i + 1]| && i <= |saved|
    requires Optimal(P, B[z0..i + 1], saved[z0..i] + [m as real], B[i + 1], F)
    ensures var c := Combine(B[i + 1], m, B[i]);
            && Optimal(P, B[z0..i], saved[z0..i], c, F)
            && NoBetterMultiple(P, B[z0..i], B[i], c, F)
            && IsWidth(P, B[z0..i], c, F)
  {
    LastSplit(B, z0, i);
    FoldLastRow(P, B[z0..i], B[i], saved[z0..i], B[i + 1], m, F);
    IntegerMultiplierIsBest(P, B[z0..i], B[i], saved[z0..i], B[i + 1], m, F);
    OptimalIsWidth(P, B[z0..i], saved[z0..i], Combine(B[i + 1], m, B[i]), F);
  }

  /** Once a multiple m is known to be best, adding it gives the state after line 218. */
  lemma CombinedAt(s: State, FNext: real, alpha: real, saved: seq<real>, m: int, G: real, buffer: seq<real>)
    requires Evaluated(s, FNext, alpha, saved) && s.z <= s.i && |buffer| == s.nBounded
    requires var c := Combine(s.B[s.i + 1], m, s.B[s.i]);
             && Optimal(s.P(), s.B[s.z0..s.i], buffer[s.z0..s.i], c, G)
             && NoBetterMultiple(s.P(), s.B[s.z0..s.i], s.B[s.i], c, G)
             && IsWidth(s.P(), s.B[s.z0..s.i], c, G)
    ensures Combined(Sheared(s, m), G, buffer)
  {
    hide IsWidth, NoBetterMultiple, Optimal, Core, Evaluated, PolyOf;
    EvaluatedSizes(s, FNext, alpha, saved);
    ShearKeepsCore(s, m);
    EvaluatedWidth(s, FNext, alpha, saved);
    ShearKeepsNext(s.P(), s.B, s.z0, s.i, m, FNext);
    assert Sheared(s, m).P() == s.P();
  }

  /** Lines 187-188, and 217: an integer multiplier is taken as it is. */
  lemma CombinedExactly(s: State, FNew: real, alpha: real, saved: seq<real>)
    requires Evaluated(s, FNew, alpha, saved)
    requires alpha == alpha.Floor as real
    ensures Combined(Sheared(s, alpha.Floor), FNew, saved)
  {
    hide IsWidth, NoBetterMultiple, Optimal;
    if s.i + 1 == s.z {
      CombinedWithZeroRow(s, FNew, saved);
    } else {
      ExactMultiple(s.P(), s.B, s.z0, s.i, saved, alpha.Floor, FNew);
      CombinedAt(s, FNew, alpha, saved, alpha.Floor, FNew, saved);
    }
  }

  lemma CombinedWithZeroRow(s: State, FNew: real, saved: seq<real>)
    requires Evaluated(s, FNew, 0.0, saved) && s.i + 1 == s.z
    ensures Sheared(s, 0) == s && Combined(s, FNew, saved)
  {
    hide IsWidth, NoBetterMultiple, Optimal;
    CombineZero(s.B[s.i + 1], s.B[s.i]);
    assert s.B[s.i + 1 := s.B[s.i + 1]] == s.B;
    EvaluatedWidth(s, FNew, 0.0, saved);
  }

  /** Lines 192-205: what one of the two trial solves gives. */
  lemma Trial(s: State, m: int, answer: Solution, buffer: seq<real>)
    requires Core(s) && s.z <= s.i && s.i + 1 < s.nBounded && |buffer| == s.nBounded
    requires Minimum(s.con, s.dim, Combine(s.B[s.i + 1], m, s.B[s.i]), answer)
    requires forall j :: s.z <= j < s.i ==> buffer[j] == -answer.dual[s.conOffset + j - s.z0]
    ensures Optimal(s.P(), s.B[s.z0..s.i], buffer[s.z0..s.i], Combine(s.B[s.i + 1], m, s.B[s.i]), -answer.opt)
    ensures answer.x in s.P() && answer.y in s.P()
  {
    TrialSolved(s.con, s.dim, s.conOffset, s.B, s.z0, s.z, s.i, Combine(s.B[s.i + 1], m, s.B[s.i]), answer, buffer);
  }

  lemma TrialSolved(con: seq<Con>, dim: nat, conOffset: nat, B: seq<Row>, z0: nat, z: nat, i: nat,
                    obj: Row, answer: Solution, buffer: seq<real>)
    requires Symmetric(con) && RowsStacked(con, conOffset, B, z0, z, i) && z <= i <= |buffer|
    requires Minimum(con, dim, obj, answer)
    requires forall j :: z <= j < i ==> buffer[j] == -answer.dual[conOffset + j - z0]
    requires forall k :: z0 <= k < z ==> ConstantOn(PolyOf(con, dim), B[k])
    ensures Optimal(PolyOf(con, dim), B[z0..i], buffer[z0..i], obj, -answer.opt)
    ensures answer.x in PolyOf(con, dim) && answer.y in PolyOf(con, dim)
  {
    SavedIsOptimal(con, dim, obj, answer, conOffset, B, z0, z, i, buffer[..i]);
    assert buffer[..i][z0..] == buffer[z0..i];
    MinimumIsOptimal(con, dim, obj, answer);
  }

  /** Lines 207-215, and 217: of floor and ceiling, the one that gives the smaller width. */
  lemma CombinedByTrial(s: State, FNext: real, alpha: real, saved: seq<real>,
                        G0: real, buffer0: seq<real>, G1: real, buffer1: seq<real>)
    requires Evaluated(s, FNext, alpha, saved) && s.z <= s.i
    requires alpha.Floor != Ceil(alpha)
    requires |buffer0| == |buffer1| == s.nBounded
    requires Optimal(s.P(), s.B[s.z0..s.i], buffer0[s.z0..s.i], Combine(s.B[s.i + 1], alpha.Floor, s.B[s.i]), G0)
    requires Optimal(s.P(), s.B[s.z0..s.i], buffer1[s.z0..s.i], Combine(s.B[s.i + 1], Ceil(alpha), s.B[s.i]), G1)
    ensures G0 < G1 ==> Combined(Sheared(s, alpha.Floor), G0, buffer0)
    ensures G1 <= G0 ==> Combined(Sheared(s, Ceil(alpha)), G1, buffer1)
  {
    hide IsWidth, NoBetterMultiple, Optimal;
    BetterTrial(s.P(), s.B, s.z0, s.i, saved, alpha, FNext, G0, buffer0, G1, buffer1);
    if G0 < G1 {
      CombinedAt(s, FNext, alpha, saved, alpha.Floor, G0, buffer0);
    } else {
      CombinedAt(s, FNext, alpha, saved, Ceil(alpha), G1, buffer1);
    }
  }

  lemma BetterTrial(P: Poly, B: seq<Row>, z0: nat, i: nat, saved: seq<real>, alpha: real, F: real,
                    G0: real, buffer0: seq<real>, G1: real, buffer1: seq<real>)
    requires z0 <= i && i + 1 < |B| && |B[i]| == |B[i + 1]|
    requires i <= |saved| && i <= |buffer0| && i <= |buffer1|
    requires alpha.Floor != Ceil(alpha)
    requires Optimal(P, B[z0..i + 1], saved[z0..i] + [alpha], B[i + 1], F)
    requires Optimal(P, B[z0..i], buffer0[z0..i], Combine(B[i + 1], alpha.Floor, B[i]), G0)
    requires Optimal(P, B[z0..i], buffer1[z0..i], Combine(B[i + 1], Ceil(alpha), B[i]), G1)
    ensures G0 < G1 ==> NoBetterMultiple(P, B[z0..i], B[i], Combine(B[i + 1], alpha.Floor, B[i]), G0)
    ensures G1 <= G0 ==> NoBetterMultiple(P, B[z0..i], B[i], Combine(B[i + 1], Ceil(alpha), B[i]), G1)
    ensures IsWidth(P, B[z0..i], Combine(B[i + 1], alpha.Floor, B[i]), G0)
    ensures IsWidth(P, B[z0..i], Combine(B[i + 1], Ceil(alpha), B[i]), G1)
  {
    LastSplit(B, z0, i);
    OptimalIsWidth(P, B[z0..i], buffer0[z0..i], Combine(B[i + 1], alpha.Floor, B[i]), G0);
    OptimalIsWidth(P, B[z0..i], buffer1[z0..i], Combine(B[i + 1], Ceil(alpha), B[i]), G1);
    FloorOrCeilIsBest(P, B[z0..i], B[i], saved[z0..i], alpha, B[i + 1], F, G0, G1);
  }

  // ----- Cutting ------------------------------------------------------------------------------------

  /** Row r = z has just been found to have a fixed value: the polytope is cut to h and the row
      becomes a zero row. */
  ghost function AfterCut(s: State, r: nat, h: Half): State
    requires r < |s.F|
  {
    s.(con := s.con + [Left(h), Right(h)], conOffset := s.conOffset + 2, F := s.F[r := 0.0], z := r + 1)
  }

  lemma CutMakesZeroRow(s: State, r: nat, h: Half)
    requires Core(s) && r == s.z && s.i <= r <= s.i + 1 && r < s.nBounded
    requires h.kind == Equality && h.coeffs == s.B[r]
    requires Meets(s.P(), h)
    ensures AfterCut(s, r, h).P() <= s.P()
    ensures forall x :: x in AfterCut(s, r, h).P() <==> x in s.P() && Sat(h, x)
    ensures Core(AfterCut(s, r, h))
    ensures IsWidth(AfterCut(s, r, h).P(), s.B[s.z0..r], s.B[r], 0.0)
  {
    hide PolyOf, IsWidth, ConstantOn, Sat;
    var t := AfterCut(s, r, h);
    PolyOfCut(s.con, s.dim, h);
    assert t.P() == iset x | x in s.P() && Sat(h, x);
    var x :| x in s.P() && Sat(h, x);
    assert x in t.P();
    ConstantAfterCut(s.P(), t.P(), h);
    forall k | s.z0 <= k < t.z ensures ConstantOn(t.P(), t.B[k]) && t.F[k] == 0.0 {
      if k < r {
        ConstantSubset(s.P(), t.P(), s.B[k]);
      }
    }
    BoundedSubset(s.P(), t.P(), s.B, s.nBounded);
    forall k | s.z0 <= k <= r ensures IsWidth(t.P(), t.B[s.z0..k], t.B[k], 0.0) {
      ConstantWidth(t.P(), t.B[s.z0..k], t.B[k], x);
    }
  }

  lemma ConstantSubset(P: Poly, Q: Poly, r: Row)
    requires Q <= P && ConstantOn(P, r)
    ensures ConstantOn(Q, r)
  {
  }

  /** On the hyperplane the row has one value. */
  lemma ConstantAfterCut(P: Poly, Q: Poly, h: Half)
    requires h.kind == Equality && forall x :: x in Q <==> x in P && Sat(h, x)
    ensures ConstantOn(Q, h.coeffs)
  {
  }

  /** What the cut needs to know about the row. */
  lemma ReadyToCut(s: State, r: nat, FNew: real)
    requires Core(s) && r == s.z && s.i <= r <= s.i + 1 && r < s.nBounded
    requires IsWidth(s.P(), s.B[s.z0..s.i], s.B[r], FNew)
    ensures forall k :: 0 <= k < |RowsOf(s.con)| ==> ConstantOn(s.P(), RowsOf(s.con)[k])
    ensures IsWidth(s.P(), [], s.B[r], FNew)
    ensures FNew != 0.0 ==> !ConstantOn(s.P(), s.B[r])
    ensures Symmetric(s.con) && |s.con| + 1 < s.base + 3 * s.dim + 1
  {
    StackIsConstant(s.con, s.dim, s.conOffset, s.B, s.F, s.z0, s.z, s.i, s.B[r], FNew);
  }

  lemma StackIsConstant(con: seq<Con>, dim: nat, conOffset: nat, B: seq<Row>, F: seq<real>,
                        z0: nat, z: nat, i: nat, b: Row, FNew: real)
    requires RowsStacked(con, conOffset, B, z0, z, i) && i <= z <= |B| && z <= |F|
    requires ZeroRows(PolyOf(con, dim), B, F, z0, z)
    requires IsWidth(PolyOf(con, dim), B[z0..i], b, FNew)
    ensures forall k :: 0 <= k < |RowsOf(con)| ==> ConstantOn(PolyOf(con, dim), RowsOf(con)[k])
    ensures IsWidth(PolyOf(con, dim), [], b, FNew)
    ensures FNew != 0.0 ==> !ConstantOn(PolyOf(con, dim), b)
    ensures FNew == 0.0 ==> ConstantOn(PolyOf(con, dim), b)
  {
    var P := PolyOf(con, dim);
    forall k | 0 <= k < |RowsOf(con)| ensures ConstantOn(P, RowsOf(con)[k]) {
      assert RowsOf(con)[k] == B[z0 + k];
    }
    DropConstantRows(P, B[z0..i], b, FNew);
    if FNew != 0.0 {
      NotConstant(P, b, FNew);
    } else {
      forall x, y | x in P && y in P ensures Diff(b, x, y) == 0.0 {
        assert Agree([], x, y) && Agree([], y, x);
      }
    }
  }

  /** Without a cut, when the width is zero already. */
  lemma AlreadyZero(s: State, r: nat)
    requires Core(s) && r == s.z && s.i <= r <= s.i + 1 && r < s.nBounded
    requires IsWidth(s.P(), s.B[s.z0..s.i], s.B[r], 0.0) && s.F[r] == 0.0
    ensures Core(s.(z := r + 1))
    ensures IsWidth(s.P(), s.B[s.z0..r], s.B[r], 0.0)
  {
    hide IsWidth, NoBetterMultiple, Optimal;
    var t := s.(z := r + 1);
    assert t.P() == s.P();
    StackIsConstant(s.con, s.dim, s.conOffset, s.B, s.F, s.z0, s.z, s.i, s.B[r], 0.0);
    var x :| x in s.P();
    ConstantWidth(s.P(), s.B[s.z0..r], s.B[r], x);
  }

  // ----- Swapping and advancing -----------------------------------------------------------------------

  /** Lines 262-265. */
  ghost function Advanced(s: State): State
    requires Sized(s)
  {
    s.(i := s.i + 1, con := s.con + [RowEq(s.B[s.i])], neq := s.neq + 1,
       stack := s.stack + [|s.con|])
  }

  lemma AdvanceKeepsCore(s: State, FNew: real, saved: seq<real>)
    requires CutDone(s, FNew, saved)
    ensures Core(Advanced(s))
  {
    hide IsWidth, NoBetterMultiple, Optimal, ConstantOn, Bounded;
    var t := Advanced(s);
    PushRow(s.con, s.conOffset, s.B, s.z0, s.z, s.i);
    PolyOfRow(s.con, s.dim, s.B[s.i]);
    assert t.P() == s.P();
  }

  /** Lines 239-246: the rows are swapped and the last row of the LP is popped. */
  ghost function SwappedBack(s: State): State
    requires Sized(s) && s.i + 1 < |s.B| && s.z0 < s.i && |s.con| > 0
  {
    s.(B := Exchanged(s.B, s.i), i := s.i - 1, con := s.con[..|s.con| - 1], neq := s.neq - 1,
       stack := s.stack[..s.neq - 1])
  }

  lemma SwapBackKeepsHead(s: State, FNew: real, saved: seq<real>)
    requires Combined(s, FNew, saved) && s.z < s.i
    ensures |s.con| > 0 && s.stack[s.neq - 1] == |s.con| - 1
    ensures Head(SwappedBack(s), true, FNew, saved)
    ensures SwappedBack(s).P() == s.P()
  {
    hide IsWidth, NoBetterMultiple, Optimal, PolyOf;
    PopRow(s.con, s.conOffset, s.B, s.z0, s.z, s.i);
    var t := SwappedBack(s);
    PoppedPoly(t.con, s.con, s.dim, s.B[s.i - 1]);
    assert t.B[..t.i] == s.B[..t.i];
    LaterRowsChanged(t.con, s.conOffset, s.B, t.B, s.z0, s.z, t.i);
    EarlierRowsKept(s, t);
    assert t.B[s.z0..s.i] == s.B[s.z0..s.i];
    SwapBackCore(s, t);
  }

  lemma PoppedPoly(con: seq<Con>, full: seq<Con>, dim: nat, r: Row)
    requires full == con + [RowEq(r)] && Symmetric(full)
    ensures PolyOf(con, dim) == PolyOf(full, dim) && Symmetric(con)
  {
    PolyOfRow(con, dim, r);
    RowSymmetric(con, r);
  }

  lemma SwapBackCore(s: State, t: State)
    requires Core(s) && s.z < s.i && s.i + 1 < s.nBounded && |s.con| > 0 && t == SwappedBack(s)
    requires t.P() == s.P() && Symmetric(t.con)
    requires RowsStacked(t.con, t.conOffset, t.B, t.z0, t.z, t.i)
    requires BoundedRows(t.P(), t.B, t.nBounded) && ZeroRows(t.P(), t.B, t.F, t.z0, t.z)
    requires forall k :: s.z0 <= k < s.i ==> IsWidth(t.P(), t.B[t.z0..k], t.B[k], t.F[k])
    ensures Core(t)
  {
    hide IsWidth, PolyOf, RowsStacked, BoundedRows, ZeroRows;
  }

  lemma RowSymmetric(con: seq<Con>, r: Row)
    requires Symmetric(con + [RowEq(r)])
    ensures Symmetric(con)
  {
    forall h ensures Left(h) in con <==> Right(h) in con {
      assert Left(h) in con <==> Left(h) in con + [RowEq(r)];
      assert Right(h) in con <==> Right(h) in con + [RowEq(r)];
    }
  }

  /** Everything known about rows below the swapped pair stays known. */
  lemma EarlierRowsKept(s: State, t: State)
    requires Core(s) && s.i + 1 < s.nBounded && t.P() == s.P()
    requires t.z0 == s.z0 && t.z == s.z && t.F == s.F && t.nBounded == s.nBounded
    requires t.B == Exchanged(s.B, s.i)
    requires s.z <= s.i
    ensures BoundedRows(t.P(), t.B, t.nBounded)
    ensures ZeroRows(t.P(), t.B, t.F, t.z0, t.z)
    ensures forall k :: s.z0 <= k < s.i ==> IsWidth(t.P(), t.B[t.z0..k], t.B[k], t.F[k])
  {
    forall k | s.z0 <= k < s.i ensures t.B[t.z0..k] == s.B[t.z0..k] { }
  }

  /** Lines 239 and 248: the swap at the first nonzero row. */
  ghost function SwappedFirst(s: State, FNew: real): State
    requires Sized(s) && s.i + 1 < |s.B|
  {
    s.(B := Exchanged(s.B, s.i), F := s.F[s.i := FNew])
  }

  lemma SwapFirstKeepsCore(s: State, FNew: real, saved: seq<real>)
    requires Combined(s, FNew, saved) && s.z == s.i
    ensures Core(SwappedFirst(s, FNew))
    ensures SwappedFirst(s, FNew).P() == s.P()
    ensures IsWidth(s.P(), SwappedFirst(s, FNew).B[s.z0..s.i], SwappedFirst(s, FNew).B[s.i], FNew)
  {
    hide IsWidth, NoBetterMultiple, Optimal, PolyOf;
    var t := SwappedFirst(s, FNew);
    assert t.P() == s.P();
    assert t.B[..s.i] == s.B[..s.i];
    LaterRowsChanged(s.con, s.conOffset, s.B, t.B, s.z0, s.z, s.i);
    EarlierRowsKept(s, t.(F := s.F));
    assert t.B[s.z0..s.i] == s.B[s.z0..s.i];
    SwapFirstCore(s, t, FNew);
  }

  lemma SwapFirstCore(s: State, t: State, FNew: real)
    requires Core(s) && s.z == s.i && s.i + 1 < s.nBounded && t == SwappedFirst(s, FNew)
    requires t.P() == s.P() && RowsStacked(t.con, t.conOffset, t.B, t.z0, t.z, t.i)
    requires BoundedRows(t.P(), t.B, t.nBounded) && ZeroRows(t.P(), t.B, s.F, t.z0, t.z)
    requires forall k :: s.z0 <= k < s.i ==> IsWidth(t.P(), t.B[t.z0..k], t.B[k], s.F[k])
    requires IsWidth(t.P(), t.B[t.z0..s.i], t.B[s.i], FNew)
    ensures Core(t)
  {
    hide IsWidth, PolyOf, RowsStacked, BoundedRows;
  }
}
