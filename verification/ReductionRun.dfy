/** The reduction as the textbook has it: a loop whose every decision is stated in terms of the true
    widths of the rows. A run is a sequence of loop heads; what the algorithm promises is proved for
    every run. */
module ReductionRun {
  import opened Vectors
  import opened Widths
  import opened Tableau
  import opened TabLp
  import opened FixedValue
  import opened Lattice
  import opened ReductionInvariant

  // ----- What a run is made of -------------------------------------------------------------------------

  /** Row number index was fixed to a value, relying on the test made at probe. */
  datatype Cut = Cut(index: nat, row: Row, value: int, width: real, probe: Probe)
  {
    /** The multiples of other rows that were added between the test and the cut do not cancel, and the
        width does not exclude a second integer. */
    predicate Risky() {
      width >= 1.0 && probe.row != row
    }
  }

  /** A test that was saved by a back-up for the next round. */
  datatype Saved = Nothing | Test(probe: Probe)

  datatype End = Going | Stopped | Emptied

  /** A loop head: the basis, n_zero, i, the cuts made so far, and how the run has ended, if it has. */
  datatype Stage = Stage(B: seq<Row>, z: nat, i: nat, cuts: seq<Cut>, saved: Saved, end: End)

  /** The choices of one round: the multiple of row i added to row i + 1, the width G of the result and
      the width F of row i, both given the rows before row i, and the test whose outcome is `fixed`. */
  datatype Move = Move(m: int, G: real, F: real, fixed: bool, probe: Probe)

  datatype Problem = Problem(P0: Poly, dim: nat, z0: nat, n: nat, onlyFirst: bool)

  /** The polytope cut to the recorded hyperplanes. */
  ghost function Inside(P0: Poly, cuts: seq<Cut>): Poly {
    iset x | x in P0 && forall k :: 0 <= k < |cuts| ==> Dot(cuts[k].row, x) == cuts[k].value as real
  }

  /** The least value of the row on P, rounded up. */
  ghost function RoundedMinimum(P: Poly, row: Row): int {
    if exists x :: x in P && AtMinimum(P, row, x) then
      var x :| x in P && AtMinimum(P, row, x);
      Ceil(Dot(row, x))
    else 0
  }

  lemma RoundedMinimumAt(P: Poly, row: Row, x: Point)
    requires x in P && AtMinimum(P, row, x)
    ensures RoundedMinimum(P, row) == Ceil(Dot(row, x))
  {
    var y :| y in P && AtMinimum(P, row, y) && RoundedMinimum(P, row) == Ceil(Dot(row, y));
    assert Dot(row, y) == Dot(row, x);
  }

  // ----- One round -------------------------------------------------------------------------------------

  predicate Fits(p: Problem, g: Stage) {
    && |g.B| == p.dim && Rectangular(g.B, p.dim)
    && p.z0 <= g.i < p.n <= p.dim && p.z0 <= g.z <= g.i + 1
  }

  predicate MayGoOn(p: Problem, g: Stage) {
    Fits(p, g) && g.end == Going && g.i + 1 < p.n
  }

  function NewRow(p: Problem, g: Stage, m: int): Row
    requires MayGoOn(p, g)
  {
    Combine(g.B[g.i + 1], m, g.B[g.i])
  }

  /** The choices are those of the algorithm: the best integer multiple; the true widths; and a test that
      was made on the new row, or on the row as it was before, or was saved. */
  ghost predicate Chosen(p: Problem, g: Stage, mv: Move)
    requires MayGoOn(p, g)
  {
    var P, R, c := Inside(p.P0, g.cuts), g.B[p.z0..g.i], NewRow(p, g, mv.m);
    && IsWidth(P, R, c, mv.G) && IsWidth(P, R, g.B[g.i], mv.F)
    && (if g.i + 1 == g.z then mv.m == 0 else NoBetterMultiple(P, R, g.B[g.i], c, mv.G))
    && ProbeOf(P, mv.probe, mv.G, mv.fixed)
    && (mv.probe.row == c || if g.saved.Test? then mv.probe == g.saved.probe else mv.probe.row == g.B[g.i + 1])
  }

  /** Row n_zero becomes a zero row; unless its width is zero, the polytope is cut first, which may leave
      nothing. */
  ghost function Closed(p: Problem, g: Stage, mv: Move): Stage
    requires g.z < |g.B|
  {
    if mv.G == 0.0 then g.(z := g.z + 1)
    else
      var cut := Cut(g.z, g.B[g.z], RoundedMinimum(Inside(p.P0, g.cuts), g.B[g.z]), mv.G, mv.probe);
      if Inside(p.P0, g.cuts + [cut]) == iset{} then g.(cuts := g.cuts + [cut], end := Emptied)
      else g.(cuts := g.cuts + [cut], z := g.z + 1)
  }

  lemma ClosedFields(p: Problem, g: Stage, mv: Move)
    requires g.z < |g.B| && g.end == Going
    ensures var t := Closed(p, g, mv); t.B == g.B && t.i == g.i && t.saved == g.saved && t.end != Stopped
  {
  }

  /** After line 218. */
  function WithMultiple(p: Problem, g: Stage, mv: Move): Stage
    requires MayGoOn(p, g)
  {
    g.(B := g.B[g.i + 1 := NewRow(p, g, mv.m)], saved := Nothing)
  }

  /** After line 228. */
  ghost function FollowedUp(p: Problem, g: Stage, mv: Move): Stage
    requires MayGoOn(p, g)
  {
    if g.i + 1 == g.z && mv.fixed then Closed(p, WithMultiple(p, g, mv), mv) else WithMultiple(p, g, mv)
  }

  /** Whether the rows i and i + 1 are exchanged. */
  predicate Swaps(mv: Move) {
    4.0 * mv.G < 3.0 * mv.F
  }

  /** Lines 230-265. */
  ghost function SwappedOrAdvanced(p: Problem, g: Stage, mv: Move): Stage
    requires g.i + 1 < |g.B|
  {
    if !Swaps(mv) then g.(i := g.i + 1)
    else
      var t := g.(B := Exchanged(g.B, g.i));
      if g.i > g.z then t.(i := g.i - 1, saved := Test(mv.probe))
      else if p.onlyFirst && mv.G < 2.0 then t.(end := Stopped)
      else if mv.fixed && g.z < |g.B| then Closed(p, t, mv)
      else t
  }

  ghost function NextStage(p: Problem, g: Stage, mv: Move): Stage
    requires MayGoOn(p, g)
  {
    var t := FollowedUp(p, g, mv);
    if t.end == Emptied then t else SwappedOrAdvanced(p, t, mv)
  }

  ghost predicate IsRound(p: Problem, g: Stage, mv: Move, t: Stage) {
    MayGoOn(p, g) && Chosen(p, g, mv) && t == NextStage(p, g, mv)
  }

  // ----- Runs ------------------------------------------------------------------------------------------

  function AtEntry(p: Problem, B0: seq<Row>): Stage {
    Stage(B0, p.z0, p.z0, [], Nothing, Going)
  }

  /** Lines 132-148: the width of the first row; below 1 it is a zero row. */
  ghost predicate Started(p: Problem, B0: seq<Row>, first: Move, g: Stage) {
    && Fits(p, AtEntry(p, B0)) && p.P0 != iset{}
    && IsWidth(p.P0, [], B0[p.z0], first.G)
    && g == if first.G < 1.0 then Closed(p, AtEntry(p, B0), first) else AtEntry(p, B0)
  }

  datatype History = History(p: Problem, B0: seq<Row>, first: Move, stages: seq<Stage>, moves: seq<Move>)

  ghost predicate IsRun(h: History) {
    && |h.stages| == |h.moves| + 1
    && Started(h.p, h.B0, h.first, h.stages[0])
    && forall k :: 0 <= k < |h.moves| ==> IsRound(h.p, h.stages[k], h.moves[k], h.stages[k + 1])
  }

  function Last(h: History): Stage
    requires h.stages != []
  {
    h.stages[|h.stages| - 1]
  }

  lemma RunGoesOn(h: History, mv: Move, t: Stage)
    requires IsRun(h) && IsRound(h.p, Last(h), mv, t)
    ensures IsRun(h.(stages := h.stages + [t], moves := h.moves + [mv]))
  {
    hide IsRound, Started;
    var h' := h.(stages := h.stages + [t], moves := h.moves + [mv]);
    forall k | 0 <= k < |h'.moves| ensures IsRound(h'.p, h'.stages[k], h'.moves[k], h'.stages[k + 1]) {
      assert k < |h.moves| ==> IsRound(h.p, h.stages[k], h.moves[k], h.stages[k + 1]);
    }
  }

  // ----- What holds at every loop head -------------------------------------------------------------------

  /** Every cut belongs to one of the zero rows, which still is as it was when it was cut. */
  predicate CutRows(p: Problem, g: Stage) {
    && (forall k :: 0 <= k < |g.cuts| ==>
          && p.z0 <= g.cuts[k].index < |g.B| && g.cuts[k].index < (if g.end == Emptied then g.z + 1 else g.z)
          && g.cuts[k].row == g.B[g.cuts[k].index])
    && (forall j, k :: 0 <= j < k < |g.cuts| ==> g.cuts[j].index < g.cuts[k].index)
  }

  ghost predicate ConstantRows(p: Problem, g: Stage) {
    g.z <= |g.B| && forall k :: p.z0 <= k < g.z ==> ConstantOn(Inside(p.P0, g.cuts), g.B[k])
  }

  /** Rows before n_zero are constant, the pairs from n_zero to i are reduced, and something is left of
      the polytope unless the run has ended for that reason. */
  ghost predicate Sound(p: Problem, g: Stage) {
    && Fits(p, g)
    && CutRows(p, g)
    && ConstantRows(p, g)
    && (g.end == Emptied <==> Inside(p.P0, g.cuts) == iset{})
    && ReducedBetween(Inside(p.P0, g.cuts), g.B, p.z0, g.z, g.i)
  }

  lemma InsideMore(P0: Poly, cuts: seq<Cut>, cut: Cut)
    ensures forall x :: x in Inside(P0, cuts + [cut]) <==> x in Inside(P0, cuts) && Dot(cut.row, x) == cut.value as real
  {
    var all := cuts + [cut];
    forall x | x in Inside(P0, all) ensures x in Inside(P0, cuts) && Dot(cut.row, x) == cut.value as real {
      forall k | 0 <= k < |cuts| ensures Dot(cuts[k].row, x) == cuts[k].value as real {
        assert all[k] == cuts[k];
      }
      assert all[|cuts|] == cut;
    }
  }

  /** What is needed to close row n_zero. */
  ghost predicate CanClose(p: Problem, g: Stage, mv: Move) {
    && Fits(p, g) && g.end == Going && g.z < p.n && g.i <= g.z
    && CutRows(p, g) && ConstantRows(p, g)
    && Inside(p.P0, g.cuts) != iset{}
    && IsWidth(Inside(p.P0, g.cuts), [], g.B[g.z], mv.G)
  }

  lemma ClosedIsSound(p: Problem, g: Stage, mv: Move)
    requires CanClose(p, g, mv)
    ensures var t := Closed(p, g, mv);
            && t.B == g.B && t.i == g.i && t.saved == g.saved
            && (t.end == Emptied || (t.end == Going && t.z == g.z + 1))
            && (t.end == Emptied ==> t.z == g.z)
            && CutRows(p, t) && ConstantRows(p, t)
            && (t.end == Emptied <==> Inside(p.P0, t.cuts) == iset{})
  {
    var t, P := Closed(p, g, mv), Inside(p.P0, g.cuts);
    if mv.G == 0.0 {
      forall x, y | x in P && y in P ensures Diff(g.B[g.z], x, y) == 0.0 {
        assert Agree([], x, y) && Agree([], y, x);
      }
    } else {
      var cut := Cut(g.z, g.B[g.z], RoundedMinimum(P, g.B[g.z]), mv.G, mv.probe);
      InsideMore(p.P0, g.cuts, cut);
      assert t.cuts == g.cuts + [cut];
    }
  }

  // ----- Every round keeps it ----------------------------------------------------------------------------

  lemma PairKept(P: Poly, B: seq<Row>, B': seq<Row>, z0: nat, k: nat)
    requires z0 <= k && k + 1 < |B| == |B'| && B'[..k + 2] == B[..k + 2]
    requires PairReduced(P, B[z0..k], B[k], B[k + 1])
    ensures PairReduced(P, B'[z0..k], B'[k], B'[k + 1])
  {
    hide PairReduced;
    forall j | 0 <= j < k + 2 ensures B'[j] == B[j] {
      assert B'[..k + 2][j] == B[..k + 2][j];
    }
    assert B'[z0..k] == B[z0..k];
  }

  lemma PairsKept(P: Poly, B: seq<Row>, B': seq<Row>, z0: nat, z: nat, i: nat)
    requires z0 <= z && i < |B| == |B'| && B'[..i + 1] == B[..i + 1]
    requires ReducedBetween(P, B, z0, z, i)
    ensures ReducedBetween(P, B', z0, z, i)
  {
    hide PairReduced;
    forall k | z <= k < i ensures PairReduced(P, B'[z0..k], B'[k], B'[k + 1]) {
      assert B'[..k + 2] == B'[..i + 1][..k + 2] == B[..i + 1][..k + 2] == B[..k + 2];
      PairKept(P, B, B', z0, k);
    }
  }

  /** Changing rows from n_zero on does not affect cuts and zero rows. */
  lemma LaterRows(p: Problem, g: Stage, t: Stage)
    requires CutRows(p, g) && ConstantRows(p, g) && g.end == t.end == Going
    requires t.z == g.z && t.cuts == g.cuts && |t.B| == |g.B| && t.B[..g.z] == g.B[..g.z]
    ensures CutRows(p, t) && ConstantRows(p, t)
  {
    hide ConstantOn;
    assert forall k :: 0 <= k < g.z ==> t.B[k] == t.B[..g.z][k] == g.B[..g.z][k] == g.B[k];
  }

  /** With row i constant nothing is added to row i + 1, and no rows are exchanged. */
  lemma AfterZeroRow(p: Problem, g: Stage, mv: Move)
    requires Sound(p, g) && MayGoOn(p, g) && Chosen(p, g, mv) && g.i + 1 == g.z
    ensures WithMultiple(p, g, mv).B == g.B && !Swaps(mv)
    ensures IsWidth(Inside(p.P0, g.cuts), [], g.B[g.z], mv.G)
  {
    hide IsWidth, ConstantOn, PairReduced, NoBetterMultiple, ProbeOf, Inside;
    var P := Inside(p.P0, g.cuts);
    CombineZero(g.B[g.i + 1], g.B[g.i]);
    var x :| x in P;
    ConstantWidth(P, g.B[p.z0..g.i], g.B[g.i], x);
    WidthUnique(P, g.B[p.z0..g.i], g.B[g.i], mv.F, 0.0);
    WidthNonNegative(P, g.B[p.z0..g.i], g.B[g.i + 1], mv.G);
    DropConstantRows(P, g.B[p.z0..g.i], g.B[g.z], mv.G);
  }

  lemma SoundAfterZeroRow(p: Problem, g: Stage, mv: Move, t: Stage)
    requires Sound(p, g) && IsRound(p, g, mv, t) && g.i + 1 == g.z
    ensures Sound(p, t) && t.saved == Nothing
  {
    hide ConstantOn, PairReduced, NoBetterMultiple, IsWidth, Inside;
    AfterZeroRow(p, g, mv);
    var s := WithMultiple(p, g, mv);
    assert s == g.(saved := Nothing);
    if mv.fixed {
      ClosedIsSound(p, s, mv);
    }
  }

  /** Advancing past a pair that is not exchanged: the pair is reduced. */
  lemma SoundAdvance(p: Problem, g: Stage, mv: Move, t: Stage)
    requires Sound(p, g) && IsRound(p, g, mv, t) && g.z <= g.i && !Swaps(mv)
    ensures Sound(p, t)
  {
    hide ConstantOn, NoBetterMultiple, IsWidth, Inside;
    var P := Inside(p.P0, g.cuts);
    assert t.B[..g.i + 1] == g.B[..g.i + 1];
    assert t.B[..g.z] == t.B[..g.i + 1][..g.z] == g.B[..g.z];
    LaterRows(p, g, t);
    PairsKept(P, g.B, t.B, p.z0, g.z, g.i);
    assert t.B[p.z0..g.i] == g.B[p.z0..g.i];
    assert PairReduced(P, t.B[p.z0..g.i], t.B[g.i], t.B[g.i + 1]);
  }

  lemma SoundBackUp(p: Problem, g: Stage, mv: Move, t: Stage)
    requires Sound(p, g) && IsRound(p, g, mv, t) && g.z < g.i && Swaps(mv)
    ensures Sound(p, t)
  {
    hide ConstantOn, PairReduced, NoBetterMultiple, IsWidth, Inside;
    assert t.B[..g.i] == g.B[..g.i];
    assert t.B[..g.z] == t.B[..g.i][..g.z] == g.B[..g.z];
    LaterRows(p, g, t);
    PairsKept(Inside(p.P0, g.cuts), g.B, t.B, p.z0, g.z, g.i - 1);
  }

  /** The basis after an exchange at n_zero. */
  ghost function FirstExchanged(p: Problem, g: Stage, mv: Move): Stage
    requires MayGoOn(p, g)
  {
    var s := WithMultiple(p, g, mv);
    s.(B := Exchanged(s.B, g.i))
  }

  lemma FirstCanClose(p: Problem, g: Stage, mv: Move)
    requires Sound(p, g) && MayGoOn(p, g) && Chosen(p, g, mv) && g.z == g.i
    ensures CanClose(p, FirstExchanged(p, g, mv), mv)
  {
    hide ConstantOn, PairReduced, NoBetterMultiple, Inside;
    var t, P := FirstExchanged(p, g, mv), Inside(p.P0, g.cuts);
    assert t.B[..g.z] == g.B[..g.z];
    LaterRows(p, g, t);
    DropConstantRows(P, g.B[p.z0..g.i], NewRow(p, g, mv.m), mv.G);
  }

  lemma SoundSwapFirst(p: Problem, g: Stage, mv: Move, t: Stage)
    requires Sound(p, g) && IsRound(p, g, mv, t) && g.z == g.i && Swaps(mv)
    ensures Sound(p, t)
  {
    hide ConstantOn, PairReduced, NoBetterMultiple, IsWidth, Inside, Chosen, Closed;
    FirstCanClose(p, g, mv);
    ClosedIsSound(p, FirstExchanged(p, g, mv), mv);
  }

  lemma SoundRound(p: Problem, g: Stage, mv: Move, t: Stage)
    requires Sound(p, g) && IsRound(p, g, mv, t)
    ensures Sound(p, t)
  {
    hide Chosen, NextStage;
    if g.i + 1 == g.z {
      SoundAfterZeroRow(p, g, mv, t);
    } else if !Swaps(mv) {
      SoundAdvance(p, g, mv, t);
    } else if g.z < g.i {
      SoundBackUp(p, g, mv, t);
    } else {
      SoundSwapFirst(p, g, mv, t);
    }
  }

  lemma SoundStart(p: Problem, B0: seq<Row>, first: Move, g: Stage)
    requires Started(p, B0, first, g)
    ensures Sound(p, g)
  {
    var s := AtEntry(p, B0);
    assert Inside(p.P0, s.cuts) == p.P0;
    ClosedIsSound(p, s, first);
  }

  /** Every loop head of every run. */
  lemma {:induction false} RunIsSound(h: History, k: nat)
    requires IsRun(h) && k < |h.stages|
    ensures Sound(h.p, h.stages[k])
  {
    hide IsRound, Started, Sound;
    if k == 0 {
      SoundStart(h.p, h.B0, h.first, h.stages[0]);
    } else {
      RunIsSound(h, k - 1);
      assert IsRound(h.p, h.stages[k - 1], h.moves[k - 1], h.stages[k]);
      SoundRound(h.p, h.stages[k - 1], h.moves[k - 1], h.stages[k]);
    }
  }

  // ----- What the algorithm promises -----------------------------------------------------------------------

  ghost predicate IsReduced(P: Poly, B: seq<Row>, z0: nat, z: nat, n: nat)
    requires z0 <= z <= n <= |B| && 0 < n
  {
    && (forall k :: z0 <= k < z ==> ConstantOn(P, B[k]))
    && ReducedBetween(P, B, z0, z, n - 1)
  }

  /** At the end of the loop the basis is reduced beyond its zero rows, on the polytope that the cuts
      leave. */
  lemma RunReduces(h: History)
    requires IsRun(h) && Last(h).end == Going && Last(h).i == h.p.n - 1
    ensures var t := Last(h);
            && Fits(h.p, t) && IsReduced(Inside(h.p.P0, t.cuts), t.B, h.p.z0, t.z, h.p.n)
            && Inside(h.p.P0, t.cuts) != iset{}
  {
    hide ConstantOn, PairReduced, IsRound, Started;
    RunIsSound(h, |h.moves|);
  }

  /** Each cut is made at a zero row of the result. */
  lemma RunCutsZeroRows(h: History, k: nat)
    requires IsRun(h) && k < |Last(h).cuts|
    ensures var t, c := Last(h), Last(h).cuts[k];
            && h.p.z0 <= c.index < |t.B| && c.row == t.B[c.index]
            && c.index < (if t.end == Emptied then t.z + 1 else t.z)
  {
    hide IsRound, Started, ConstantRows;
    RunIsSound(h, |h.moves|);
  }

  /** A run that finds no new zero row, and does not end with nothing, has cut nothing. */
  lemma RunUncut(h: History)
    requires IsRun(h) && Last(h).z == h.p.z0 && Last(h).end != Emptied
    ensures Last(h).cuts == [] && Inside(h.p.P0, Last(h).cuts) == h.p.P0
  {
    hide IsRound, Started, ConstantRows;
    RunIsSound(h, |h.moves|);
    if Last(h).cuts != [] {
      RunCutsZeroRows(h, 0);
    }
  }

  // ----- Integer points --------------------------------------------------------------------------------------

  ghost predicate KeepsIntegers(P: Poly, Q: Poly) {
    forall x :: x in P && Integral(x) ==> x in Q
  }

  predicate NoRisk(cuts: seq<Cut>) {
    forall k :: 0 <= k < |cuts| ==> !cuts[k].Risky()
  }

  lemma SafeCut(P: Poly, row: Row, x: Point, FNew: real, probe: Probe)
    requires IsWidth(P, [], row, FNew) && x in P && AtMinimum(P, row, x)
    requires FNew < 1.0 || (ProbeOf(P, probe, FNew, true) && probe.row == row)
    ensures KeepsIntegerPoints(P, CutAt(row, x))
  {
    if FNew < 1.0 {
      NarrowCutIsSafe(P, row, FNew, x);
    } else {
      CutIsSafe(P, row, FNew, x, probe.x, probe.y);
    }
  }

  /** A cut that is not risky loses no integer point. */
  lemma ClosedKeepsIntegers(p: Problem, g: Stage, mv: Move)
    requires CanClose(p, g, mv)
    requires mv.G < 1.0 || ProbeOf(Inside(p.P0, g.cuts), mv.probe, mv.G, true)
    requires NoRisk(Closed(p, g, mv).cuts)
    ensures KeepsIntegers(Inside(p.P0, g.cuts), Inside(p.P0, Closed(p, g, mv).cuts))
  {
    var P, t, row := Inside(p.P0, g.cuts), Closed(p, g, mv), g.B[g.z];
    if mv.G != 0.0 {
      var x, y := WidthMinimizer(P, row, mv.G);
      RoundedMinimumAt(P, row, x);
      var cut := Cut(g.z, row, RoundedMinimum(P, row), mv.G, mv.probe);
      assert t.cuts == g.cuts + [cut] && t.cuts[|g.cuts|] == cut;
      SafeCut(P, row, x, mv.G, mv.probe);
      InsideMore(p.P0, g.cuts, cut);
      forall z | z in P && Integral(z) ensures z in Inside(p.P0, t.cuts) {
        assert Sat(CutAt(row, x), z);
      }
    }
  }

  ghost predicate ClosesRow(p: Problem, s: Stage, mv: Move, cuts: seq<Cut>, cuts': seq<Cut>) {
    CanClose(p, s, mv) && mv.fixed && s.cuts == cuts && Closed(p, s, mv).cuts == cuts'
  }

  /** What a round does to the cuts. */
  lemma RoundCuts(p: Problem, g: Stage, mv: Move, t: Stage)
    requires Sound(p, g) && IsRound(p, g, mv, t)
    ensures t.cuts == g.cuts || exists s :: ClosesRow(p, s, mv, g.cuts, t.cuts)
    ensures g.cuts <= t.cuts
  {
    hide ConstantOn, PairReduced, NoBetterMultiple, IsWidth, Inside, Chosen;
    if g.i + 1 == g.z {
      AfterZeroRow(p, g, mv);
      assert WithMultiple(p, g, mv) == g.(saved := Nothing);
      assert mv.fixed ==> ClosesRow(p, WithMultiple(p, g, mv), mv, g.cuts, t.cuts);
    } else if Swaps(mv) && g.z == g.i {
      FirstCanClose(p, g, mv);
      assert t.cuts != g.cuts ==> ClosesRow(p, FirstExchanged(p, g, mv), mv, g.cuts, t.cuts);
    }
  }

  lemma RoundKeepsIntegers(p: Problem, g: Stage, mv: Move, t: Stage)
    requires Sound(p, g) && IsRound(p, g, mv, t) && NoRisk(t.cuts)
    ensures KeepsIntegers(Inside(p.P0, g.cuts), Inside(p.P0, t.cuts))
  {
    hide ConstantOn, PairReduced, NoBetterMultiple, IsWidth, Inside, Sound, NextStage, Closed;
    RoundCuts(p, g, mv, t);
    if t.cuts != g.cuts {
      var s :| ClosesRow(p, s, mv, g.cuts, t.cuts);
      ClosedKeepsIntegers(p, s, mv);
    }
  }

  /** If no cut of a run is risky, every integer point of the input is still there at every loop head. */
  lemma {:induction false} SafeRun(h: History, k: nat)
    requires IsRun(h) && k < |h.stages| && NoRisk(h.stages[k].cuts)
    ensures KeepsIntegers(h.p.P0, Inside(h.p.P0, h.stages[k].cuts))
  {
    hide IsRound, Started, Sound, Inside;
    if k == 0 {
      SafeStart(h.p, h.B0, h.first, h.stages[0]);
    } else {
      var g, mv, t := h.stages[k - 1], h.moves[k - 1], h.stages[k];
      assert IsRound(h.p, g, mv, t);
      RunIsSound(h, k - 1);
      RoundCuts(h.p, g, mv, t);
      assert forall j :: 0 <= j < |g.cuts| ==> g.cuts[j] == t.cuts[j];
      SafeRun(h, k - 1);
      RoundKeepsIntegers(h.p, g, mv, t);
    }
  }

  lemma SafeStart(p: Problem, B0: seq<Row>, first: Move, g: Stage)
    requires Started(p, B0, first, g) && NoRisk(g.cuts)
    ensures KeepsIntegers(p.P0, Inside(p.P0, g.cuts))
  {
    var s := AtEntry(p, B0);
    assert Inside(p.P0, s.cuts) == p.P0;
    if first.G < 1.0 {
      ClosedKeepsIntegers(p, s, first);
    }
  }

  /** In particular an empty end without a risky cut means that there was no integer point. */
  ghost predicate NoIntegerPoint(P: Poly) {
    forall x :: x in P ==> !Integral(x)
  }

  lemma SafeEnd(h: History)
    requires IsRun(h) && NoRisk(Last(h).cuts)
    ensures KeepsIntegers(h.p.P0, Inside(h.p.P0, Last(h).cuts))
    ensures Last(h).end == Emptied ==> NoIntegerPoint(h.p.P0)
  {
    hide IsRound, Started;
    SafeRun(h, |h.moves|);
    RunIsSound(h, |h.moves|);
  }

  // ----- Progress ----------------------------------------------------------------------------------------------

  /** The round exchanges the rows n_zero and n_zero + 1. */
  predicate SwapsFirst(g: Stage, mv: Move) {
    g.i == g.z && Swaps(mv)
  }

  /** How often that happens in the rounds from a to b. */
  function FirstSwaps(h: History, a: nat, b: nat): nat
    requires a <= b <= |h.moves| && |h.moves| < |h.stages|
  {
    if a == b then 0
    else FirstSwaps(h, a, b - 1) + if SwapsFirst(h.stages[b - 1], h.moves[b - 1]) then 1 else 0
  }

  /** n_zero has the value v at every loop head from a to b. */
  predicate SameZero(h: History, a: nat, b: nat, v: nat)
    requires b < |h.stages|
  {
    forall k :: a <= k <= b ==> h.stages[k].z == v
  }

  /** An exchange at n_zero leaves the new row with the width G, which is below 3/4 of the old one. */
  lemma FirstSwapWidths(p: Problem, g: Stage, mv: Move, W: real)
    requires Sound(p, g) && MayGoOn(p, g) && Chosen(p, g, mv) && g.i == g.z
    requires IsWidth(Inside(p.P0, g.cuts), [], g.B[g.z], W)
    ensures mv.F == W && 0.0 <= mv.G && IsWidth(Inside(p.P0, g.cuts), [], NewRow(p, g, mv.m), mv.G)
    ensures mv.G < 1.0 ==> mv.fixed
  {
    var P, R := Inside(p.P0, g.cuts), g.B[p.z0..g.i];
    DropConstantRows(P, R, g.B[g.i], mv.F);
    DropConstantRows(P, R, NewRow(p, g, mv.m), mv.G);
    WidthUnique(P, [], g.B[g.i], mv.F, W);
    WidthNonNegative(P, [], NewRow(p, g, mv.m), mv.G);
    FixedWhenNarrow(P, mv.probe, mv.G, mv.fixed);
  }

  /** A round that leaves n_zero alone and goes on: either row n_zero stays, or it was exchanged for a
      row of width G that is not fixed. */
  lemma RowStaysOrSwaps(p: Problem, g: Stage, mv: Move, t: Stage)
    requires Sound(p, g) && IsRound(p, g, mv, t) && g.z <= g.i && t.z == g.z && t.end == Going
    ensures t.cuts == g.cuts && g.z <= t.i && g.z < |t.B|
    ensures !SwapsFirst(g, mv) ==> t.B[g.z] == g.B[g.z]
    ensures SwapsFirst(g, mv) ==> !mv.fixed && t.B[g.z] == NewRow(p, g, mv.m)
  {
    hide ConstantOn, PairReduced, NoBetterMultiple, IsWidth, Inside, Chosen;
  }

  lemma {:induction false} OnTrackAt(h: History, a: nat, k: nat, v: nat, first: real)
    requires IsRun(h) && a <= k < |h.moves| && SameZero(h, a, k, v)
    requires v <= h.stages[a].i && v < |h.stages[a].B|
    requires IsWidth(Inside(h.p.P0, h.stages[a].cuts), [], h.stages[a].B[v], first)
    ensures v <= h.stages[k].i && v < |h.stages[k].B|
    ensures exists W :: IsWidth(Inside(h.p.P0, h.stages[k].cuts), [], h.stages[k].B[v], W)
                        && OnTrack(first, FirstSwaps(h, a, k), W)
    decreases k - a
  {
    hide IsRound, Started, Sound, Inside, IsWidth, OnTrack;
    if a == k {
      StartsOnTrack(first);
    } else {
      var g, mv, t := h.stages[k - 1], h.moves[k - 1], h.stages[k];
      OnTrackAt(h, a, k - 1, v, first);
      var W :| IsWidth(Inside(h.p.P0, g.cuts), [], g.B[v], W) && OnTrack(first, FirstSwaps(h, a, k - 1), W);
      assert IsRound(h.p, g, mv, t) && IsRound(h.p, t, h.moves[k], h.stages[k + 1]);
      RunIsSound(h, k - 1);
      TrackStep(h.p, g, mv, t, v, first, FirstSwaps(h, a, k - 1), W, h.moves[k], h.stages[k + 1]);
    }
  }

  lemma StartsOnTrack(first: real)
    ensures OnTrack(first, 0, first)
  {
  }

  lemma TrackStep(p: Problem, g: Stage, mv: Move, t: Stage, v: nat, first: real, swaps: nat, W: real, mv': Move, t': Stage)
    requires Sound(p, g) && IsRound(p, g, mv, t) && IsRound(p, t, mv', t') && g.z == t.z == v && v <= g.i
    requires v < |g.B| && IsWidth(Inside(p.P0, g.cuts), [], g.B[v], W) && OnTrack(first, swaps, W)
    ensures v <= t.i && v < |t.B|
    ensures exists W' :: IsWidth(Inside(p.P0, t.cuts), [], t.B[v], W')
                         && OnTrack(first, swaps + if SwapsFirst(g, mv) then 1 else 0, W')
  {
    hide Sound, Inside, IsWidth, OnTrack, Chosen, NextStage;
    RowStaysOrSwaps(p, g, mv, t);
    if SwapsFirst(g, mv) {
      FirstSwapWidths(p, g, mv, W);
      SwapProgress(first, swaps, W, mv.G);
      StillOnTrack(first, swaps + 1, mv.G);
    }
  }

  lemma StillOnTrack(first: real, swaps: nat, width: real)
    requires FourThirds(swaps) * width <= first && width >= 1.0
    ensures OnTrack(first, swaps, width)
  {
  }

  /** While n_zero has the value v, from any loop head with i >= v on, the exchanges at n_zero number at
      most 1 + log_{4/3} of the width that row v has at that loop head. The last round may be the one
      that makes n_zero grow or stops the run. */
  lemma FewFirstSwaps(h: History, a: nat, b: nat, v: nat, first: real)
    requires IsRun(h) && a < b <= |h.moves| && SameZero(h, a, b - 1, v)
    requires v <= h.stages[a].i && v < |h.stages[a].B|
    requires IsWidth(Inside(h.p.P0, h.stages[a].cuts), [], h.stages[a].B[v], first)
    ensures FewSwaps(first, FirstSwaps(h, a, b))
  {
    hide IsRound, Started, Sound, Inside, IsWidth, OnTrack, FewSwaps;
    var g, mv := h.stages[b - 1], h.moves[b - 1];
    OnTrackAt(h, a, b - 1, v, first);
    var W :| IsWidth(Inside(h.p.P0, g.cuts), [], g.B[v], W) && OnTrack(first, FirstSwaps(h, a, b - 1), W);
    assert IsRound(h.p, g, mv, h.stages[b]);
    RunIsSound(h, b - 1);
    LastSwap(h.p, g, mv, h.stages[b], first, FirstSwaps(h, a, b - 1), W);
  }

  lemma LastSwap(p: Problem, g: Stage, mv: Move, t: Stage, first: real, swaps: nat, W: real)
    requires Sound(p, g) && IsRound(p, g, mv, t) && g.z <= g.i && g.z < |g.B|
    requires IsWidth(Inside(p.P0, g.cuts), [], g.B[g.z], W) && OnTrack(first, swaps, W)
    ensures FewSwaps(first, swaps + if SwapsFirst(g, mv) then 1 else 0)
  {
    hide Sound, Inside, IsWidth, OnTrack, FewSwaps, Chosen, NextStage;
    if SwapsFirst(g, mv) {
      FirstSwapWidths(p, g, mv, W);
      SwapProgress(first, swaps, W, mv.G);
    } else {
      TrackIsFew(first, swaps, W);
    }
  }

  /** Before i has reached n_zero, nothing is exchanged, and i reaches it in one round. */
  lemma NoSwapBelow(h: History, k: nat)
    requires IsRun(h) && k < |h.moves| && h.stages[k].i < h.stages[k].z
    ensures !Swaps(h.moves[k])
    ensures h.stages[k + 1].end == Going ==> h.stages[k + 1].i == h.stages[k].i + 1
  {
    hide Started;
    RunIsSound(h, k);
    assert IsRound(h.p, h.stages[k], h.moves[k], h.stages[k + 1]);
    AfterZeroRow(h.p, h.stages[k], h.moves[k]);
  }

  /** A run that stopped early has a first direction narrower than 2. */
  lemma StoppedIsNarrow(h: History)
    requires IsRun(h) && Last(h).end == Stopped
    ensures var t := Last(h);
            && h.p.onlyFirst && t.z < |t.B|
            && exists G :: G < 2.0 && IsWidth(Inside(h.p.P0, t.cuts), [], t.B[t.z], G)
  {
    hide Started, ConstantOn, PairReduced, NoBetterMultiple, Inside, Sound, IsWidth, Closed;
    var k := |h.moves|;
    RunIsSound(h, k);
    if k == 0 {
      NotStoppedAtStart(h.p, h.B0, h.first, h.stages[0]);
    } else {
      var g, mv := h.stages[k - 1], h.moves[k - 1];
      assert IsRound(h.p, g, mv, h.stages[k]);
      RunIsSound(h, k - 1);
      StoppedRound(h.p, g, mv, h.stages[k]);
    }
  }

  lemma NotStoppedAtStart(p: Problem, B0: seq<Row>, first: Move, g: Stage)
    requires Started(p, B0, first, g)
    ensures g.end != Stopped
  {
  }

  lemma StoppedRound(p: Problem, g: Stage, mv: Move, t: Stage)
    requires Sound(p, g) && IsRound(p, g, mv, t) && t.end == Stopped
    ensures p.onlyFirst && t.z < |t.B| && mv.G < 2.0 && IsWidth(Inside(p.P0, t.cuts), [], t.B[t.z], mv.G)
  {
    hide ConstantOn, PairReduced, NoBetterMultiple, Inside, IsWidth;
    if g.i + 1 == g.z {
      AfterZeroRow(p, g, mv);
    } else {
      DropConstantRows(Inside(p.P0, g.cuts), g.B[p.z0..g.i], NewRow(p, g, mv.m), mv.G);
    }
  }

  // ----- What n_zero tells -------------------------------------------------------------------------------------

  /** Row number v has a width of at least 1 on P. */
  ghost predicate IsWide(P: Poly, B: seq<Row>, v: nat) {
    v < |B| && exists W :: W >= 1.0 && IsWidth(P, [], B[v], W)
  }

  lemma WideAt(P: Poly, B: seq<Row>, v: nat, W: real)
    requires v < |B| && W >= 1.0 && IsWidth(P, [], B[v], W)
    ensures IsWide(P, B, v)
  {
  }

  /** Row n_zero, once i has reached it. */
  ghost predicate OpenIsWide(p: Problem, g: Stage) {
    g.end == Going && g.z <= g.i ==> IsWide(Inside(p.P0, g.cuts), g.B, g.z)
  }

  /** A row n_zero that the round has combined and not closed is as wide as its test says. */
  lemma NotFixedIsWide(P: Poly, B: seq<Row>, v: nat, mv: Move)
    requires v < |B| && IsWidth(P, [], B[v], mv.G) && ProbeOf(P, mv.probe, mv.G, mv.fixed) && !mv.fixed
    ensures IsWide(P, B, v)
  {
    WidthNonNegative(P, [], B[v], mv.G);
    FixedWhenNarrow(P, mv.probe, mv.G, mv.fixed);
    WideAt(P, B, v, mv.G);
  }

  lemma WideAfterRound(p: Problem, g: Stage, mv: Move, t: Stage)
    requires Sound(p, g) && IsRound(p, g, mv, t) && OpenIsWide(p, g) && t.end == Going
    ensures OpenIsWide(p, t)
  {
    hide IsWidth, ConstantOn, PairReduced, NoBetterMultiple, ProbeOf, Inside, IsWide;
    var P := Inside(p.P0, g.cuts);
    if g.i + 1 == g.z {
      AfterZeroRow(p, g, mv);
      if !mv.fixed {
        NotFixedIsWide(P, g.B, g.z, mv);
      }
    } else if Swaps(mv) && g.i == g.z {
      FirstCanClose(p, g, mv);
      if !mv.fixed {
        NotFixedIsWide(P, FirstExchanged(p, g, mv).B, g.z, mv);
      }
    } else {
      SameRowIsWide(P, g.B, t.B, g.z);
    }
  }

  lemma SameRowIsWide(P: Poly, B: seq<Row>, B': seq<Row>, v: nat)
    requires IsWide(P, B, v) && v < |B'| && B'[v] == B[v]
    ensures IsWide(P, B', v)
  {
  }

  lemma WideAtStart(p: Problem, B0: seq<Row>, first: Move, g: Stage)
    requires Started(p, B0, first, g)
    ensures OpenIsWide(p, g)
  {
    hide IsWidth;
    assert Inside(p.P0, []) == p.P0;
    if first.G >= 1.0 {
      WideAt(p.P0, B0, p.z0, first.G);
    }
  }

  /** At every loop head of every run, the first row that is not a zero row has a width of at least 1 on
      what the cuts have left, unless i has yet to reach it: no narrower row is passed over. */
  lemma {:induction false} OpenRowIsWide(h: History, k: nat)
    requires IsRun(h) && k < |h.stages|
    ensures OpenIsWide(h.p, h.stages[k])
    decreases k
  {
    hide IsRound, Started, Sound, OpenIsWide;
    if k == 0 {
      WideAtStart(h.p, h.B0, h.first, h.stages[0]);
    } else {
      OpenRowIsWide(h, k - 1);
      RunIsSound(h, k - 1);
      assert IsRound(h.p, h.stages[k - 1], h.moves[k - 1], h.stages[k]);
      if h.stages[k].end == Going {
        WideAfterRound(h.p, h.stages[k - 1], h.moves[k - 1], h.stages[k]);
      } else {
        EndedIsOpen(h.p, h.stages[k]);
      }
    }
  }

  lemma EndedIsOpen(p: Problem, g: Stage)
    requires g.end != Going
    ensures OpenIsWide(p, g)
  {
  }

  /** The test that round k relies on passed. */
  ghost predicate TestPassed(mv: Move) {
    LooksFixed(mv.probe.row, mv.probe.x, mv.probe.y, -mv.G)
  }

  /** The round has computed row n_zero anew: it came to it after a zero row, or has exchanged it with the
      next one, since that is narrower than 3/4 of it. */
  predicate RenewsZero(g: Stage, mv: Move) {
    g.i + 1 == g.z || (g.i == g.z && 4.0 * mv.G < 3.0 * mv.F)
  }

  /** When n_zero grows: exactly when row n_zero was computed anew and the test passed, unless the early
      stop comes first; and then the polytope may turn out to be left empty. */
  lemma ZeroGrows(h: History, k: nat)
    requires IsRun(h) && k < |h.moves|
    ensures var g, mv, t := h.stages[k], h.moves[k], h.stages[k + 1];
            && (t.z == g.z + 1 || t.end == Emptied <==>
                  RenewsZero(g, mv) && TestPassed(mv) && !(h.p.onlyFirst && g.i == g.z && mv.G < 2.0))
            && g.z <= t.z <= g.z + 1 && (t.end == Emptied ==> t.z == g.z)
  {
    hide IsWidth, ConstantOn, PairReduced, NoBetterMultiple, Inside, Started, LooksFixed;
    RunIsSound(h, k);
    var g, mv, t := h.stages[k], h.moves[k], h.stages[k + 1];
    assert IsRound(h.p, g, mv, t);
    if g.i + 1 == g.z {
      AfterZeroRow(h.p, g, mv);
    }
  }

  /** When a run stops early: exactly when only the first direction is wanted and an exchange at n_zero has
      left there a row narrower than 2. */
  lemma StopsWhenNarrow(h: History, k: nat, W: real, V: real)
    requires IsRun(h) && k < |h.moves| && h.stages[k].i == h.stages[k].z && h.stages[k].z < |h.stages[k].B|
    requires IsWidth(Inside(h.p.P0, h.stages[k].cuts), [], h.stages[k].B[h.stages[k].z], W)
    requires h.stages[k].z < |h.stages[k + 1].B|
    requires IsWidth(Inside(h.p.P0, h.stages[k].cuts), [], h.stages[k + 1].B[h.stages[k].z], V)
    ensures h.stages[k + 1].end == Stopped <==> h.p.onlyFirst && 4.0 * V < 3.0 * W && V < 2.0
  {
    hide IsWidth, ConstantOn, PairReduced, NoBetterMultiple, Inside, Started, Sound, Closed;
    RunIsSound(h, k);
    var p, g, mv, t := h.p, h.stages[k], h.moves[k], h.stages[k + 1];
    assert IsRound(p, g, mv, t);
    FirstSwapWidths(p, g, mv, W);
    WidthNonNegative(Inside(p.P0, g.cuts), [], g.B[g.z], W);
    FirstRound(p, g, mv, t);
    if Swaps(mv) {
      WidthUnique(Inside(p.P0, g.cuts), [], t.B[g.z], V, mv.G);
    } else {
      WidthUnique(Inside(p.P0, g.cuts), [], t.B[g.z], V, W);
    }
  }

  /** A round at n_zero. */
  lemma FirstRound(p: Problem, g: Stage, mv: Move, t: Stage)
    requires Sound(p, g) && IsRound(p, g, mv, t) && g.i == g.z
    ensures g.z < |g.B| && |t.B| == |g.B| && t.B[g.z] == if Swaps(mv) then NewRow(p, g, mv.m) else g.B[g.z]
    ensures t.end == Stopped <==> p.onlyFirst && Swaps(mv) && mv.G < 2.0
  {
    hide IsWidth, ConstantOn, PairReduced, NoBetterMultiple, Inside, Chosen;
  }

  // ----- The lattice -------------------------------------------------------------------------------------------

  /** The changes a round makes to the basis. */
  function OpsOf(g: Stage, mv: Move): seq<Op> {
    [Shear(g.i + 1, g.i, mv.m)] + if Swaps(mv) then [Swap(g.i)] else []
  }

  function AllOps(h: History, k: nat): seq<Op>
    requires k <= |h.moves| < |h.stages|
  {
    if k == 0 then [] else AllOps(h, k - 1) + OpsOf(h.stages[k - 1], h.moves[k - 1])
  }

  /** B comes from B0 by the operations, which change only rows lo..hi. */
  ghost predicate BasisFrom(B: seq<Row>, ops: seq<Op>, B0: seq<Row>, n: nat, lo: nat, hi: nat) {
    && Rectangular(B0, n)
    && AllWithin(ops, 0, |B0|)
    && AllWithin(ops, lo, hi)
    && B == ApplyAll(ops, B0, n)
  }

  lemma BasisFromMore(B: seq<Row>, ops: seq<Op>, B0: seq<Row>, n: nat, lo: nat, hi: nat, op: Op)
    requires BasisFrom(B, ops, B0, n, lo, hi) && op.Within(lo, hi) && hi <= |B0|
    ensures |B| == |B0| && Rectangular(B, n) && op.Within(0, |B|)
    ensures BasisFrom(Apply(op, B, n), ops + [op], B0, n, lo, hi)
  {
    ApplySnoc(ops, op, B0, n);
  }

  lemma RoundBasis(p: Problem, g: Stage, mv: Move, t: Stage)
    requires Sound(p, g) && IsRound(p, g, mv, t)
    ensures var s := WithMultiple(p, g, mv).B;
            s == Apply(Shear(g.i + 1, g.i, mv.m), g.B, p.dim)
            && t.B == if Swaps(mv) then Apply(Swap(g.i), s, p.dim) else s
  {
    hide ConstantOn, PairReduced, NoBetterMultiple, IsWidth, Inside, Chosen;
    if g.i + 1 == g.z {
      AfterZeroRow(p, g, mv);
    }
  }

  /** The basis at every loop head comes from the first one by shears and swaps within the rows from
      n_zero at entry to n_bounded. */
  lemma {:induction false} RunBasis(h: History, k: nat)
    requires IsRun(h) && k < |h.stages|
    ensures BasisFrom(h.stages[k].B, AllOps(h, k), h.B0, h.p.dim, h.p.z0, h.p.n)
    ensures |h.B0| == h.p.dim
  {
    hide IsRound, Sound, Inside, Chosen;
    if k == 0 {
      assert ApplyAll([], h.B0, h.p.dim) == h.B0;
    } else {
      var g, mv, t := h.stages[k - 1], h.moves[k - 1], h.stages[k];
      RunBasis(h, k - 1);
      assert IsRound(h.p, g, mv, t);
      RunIsSound(h, k - 1);
      BasisStep(h.p, g, mv, t, AllOps(h, k - 1), h.B0);
    }
  }

  lemma BasisStep(p: Problem, g: Stage, mv: Move, t: Stage, ops: seq<Op>, B0: seq<Row>)
    requires Sound(p, g) && IsRound(p, g, mv, t) && |B0| == p.dim
    requires BasisFrom(g.B, ops, B0, p.dim, p.z0, p.n)
    ensures BasisFrom(t.B, ops + OpsOf(g, mv), B0, p.dim, p.z0, p.n)
  {
    hide Inside, Chosen, NextStage, BasisFrom;
    RoundBasis(p, g, mv, t);
    var shear := Shear(g.i + 1, g.i, mv.m);
    BasisFromMore(g.B, ops, B0, p.dim, p.z0, p.n, shear);
    if Swaps(mv) {
      BasisFromMore(WithMultiple(p, g, mv).B, ops + [shear], B0, p.dim, p.z0, p.n, Swap(g.i));
      assert ops + [shear] + [Swap(g.i)] == ops + OpsOf(g, mv);
    } else {
      assert OpsOf(g, mv) == [shear];
    }
  }

  /** What every basis of a run has in common with the first one: the rows outside the range, the
      integer lattice, and the original itself, which undoing the changes restores. */
  lemma RunKeepsLattice(h: History, k: nat, v: Row)
    requires IsRun(h) && k < |h.stages|
    ensures var B, B0, n := h.stages[k].B, h.B0, h.p.dim;
            && |B| == |B0| == n && Rectangular(B, n) && Rectangular(B0, n) && h.p.z0 <= h.p.n <= n
            && B[..h.p.z0] == B0[..h.p.z0] && B[h.p.n..] == B0[h.p.n..]
            && (InLattice(v, B, n) <==> InLattice(v, B0, n))
            && AllWithin(InverseAll(AllOps(h, k)), 0, |B|) && ApplyAll(InverseAll(AllOps(h, k)), B, n) == B0
  {
    hide IsRound, Sound, Inside;
    RunBasis(h, k);
    var ops, B0, n := AllOps(h, k), h.B0, h.p.dim;
    RowsOutsideKept(ops, B0, n, h.p.z0, h.p.n);
    LatticeKept(ops, v, B0, n);
    Undo(ops, B0, n);
  }
}
