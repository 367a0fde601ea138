/** What happens to a row between the test that is made on it and the cut that relies on the test. */
module CarriedTest {
  import opened Vectors
  import opened Widths
  import opened Tableau
  import opened TabLp
  import opened FixedValue
  import opened ReductionInvariant
  import opened ReductionRun

  /** m times the row. */
  datatype Multiple = Multiple(m: int, row: Row)

  function AddAll(row: Row, added: seq<Multiple>): (r: Row)
    requires forall k :: 0 <= k < |added| ==> |added[k].row| == |row|
    ensures |r| == |row|
  {
    if added == [] then row
    else
      var last := added[|added| - 1];
      Combine(AddAll(row, added[..|added| - 1]), last.m, last.row)
  }

  /** What has been added to row i + 1 of round k since the test that the round relies on. */
  ghost function Added(h: History, k: nat): seq<Multiple>
    requires IsRun(h) && k < |h.moves|
    decreases k
  {
    assert IsRound(h.p, h.stages[k], h.moves[k], h.stages[k + 1]);
    var g, mv := h.stages[k], h.moves[k];
    if mv.probe.row == NewRow(h.p, g, mv.m) then []
    else (if g.saved.Test? && k > 0 then Added(h, k - 1) else []) + [Multiple(mv.m, g.B[g.i])]
  }

  /** The rows added are rows of the basis of round k, each at a place of its own: the last at i, those
      before it at i + 2, i + 3, and so on. */
  ghost predicate DistinctRows(h: History, k: nat)
    requires IsRun(h) && k < |h.moves|
  {
    var g, added := h.stages[k], Added(h, k);
    && g.i + |added| < |g.B|
    && (added != [] ==> g.i < |g.B| && added[|added| - 1].row == g.B[g.i])
    && forall q :: g.i + 2 <= q <= g.i + |added| ==> g.B[q] == added[|added| + g.i - q].row
  }

  ghost predicate IsTestedRowAndMore(h: History, k: nat)
    requires IsRun(h) && k < |h.moves|
  {
    var g, mv, added := h.stages[k], h.moves[k], Added(h, k);
    && MayGoOn(h.p, g)
    && (forall j :: 0 <= j < |added| ==> |added[j].row| == |mv.probe.row|)
    && NewRow(h.p, g, mv.m) == AddAll(mv.probe.row, added)
  }

  /** A saved test comes from the round before, whose combined row is now row i + 1; the rows i and
      i + 1 of that round are now the rows i + 2 and i + 1, and later rows are as they were. */
  lemma SavedByBackUp(h: History, k: nat)
    requires IsRun(h) && k < |h.stages| && h.stages[k].saved.Test?
    ensures k > 0 && h.moves[k - 1].probe == h.stages[k].saved.probe
    ensures var g, t := h.stages[k - 1], h.stages[k];
            && MayGoOn(h.p, g) && g.i == t.i + 1 && |t.B| == |g.B|
            && t.B[t.i + 1] == NewRow(h.p, g, h.moves[k - 1].m)
            && t.B[t.i + 2] == g.B[g.i]
            && forall j :: g.i + 2 <= j < |g.B| ==> t.B[j] == g.B[j]
  {
    hide Inside, RoundedMinimum, Chosen;
    if k > 0 {
      assert IsRound(h.p, h.stages[k - 1], h.moves[k - 1], h.stages[k]);
    }
  }

  lemma AddAllSnoc(row: Row, added: seq<Multiple>, last: Multiple)
    requires forall k :: 0 <= k < |added| ==> |added[k].row| == |row|
    requires |last.row| == |row|
    ensures var all := added + [last];
            && (forall k :: 0 <= k < |all| ==> |all[k].row| == |row|)
            && AddAll(row, all) == Combine(AddAll(row, added), last.m, last.row)
  {
    var all := added + [last];
    assert all[..|all| - 1] == added;
  }

  /** The row that round k has computed is the tested row plus what was added since. */
  lemma {:induction false} SinceTheTest(h: History, k: nat)
    requires IsRun(h) && k < |h.moves|
    ensures IsTestedRowAndMore(h, k)
    decreases k
  {
    hide Inside, IsWidth, NoBetterMultiple, ProbeOf, NextStage, AddAll, Started, DistinctRows;
    RoundFacts(h, k);
    var g, mv := h.stages[k], h.moves[k];
    AddAllNone(mv.probe.row);
    if mv.probe.row != NewRow(h.p, g, mv.m) {
      if g.saved.Test? {
        SavedByBackUp(h, k);
        SinceTheTest(h, k - 1);
        AddAllSnoc(mv.probe.row, Added(h, k - 1), Multiple(mv.m, g.B[g.i]));
      } else {
        assert [] + [Multiple(mv.m, g.B[g.i])] == [Multiple(mv.m, g.B[g.i])];
        AddAllSnoc(mv.probe.row, [], Multiple(mv.m, g.B[g.i]));
      }
    }
  }

  /** No row is added twice, and none of them is the row that they are added to. */
  lemma {:induction false} AddedRowsDiffer(h: History, k: nat)
    requires IsRun(h) && k < |h.moves|
    ensures DistinctRows(h, k)
    decreases k
  {
    hide Inside, Chosen, NextStage, Started;
    RoundFacts(h, k);
    if h.stages[k].saved.Test? {
      SavedByBackUp(h, k);
      AddedRowsDiffer(h, k - 1);
    }
  }

  lemma AddAllNone(row: Row)
    ensures AddAll(row, []) == row
  {
  }

  lemma RoundFacts(h: History, k: nat)
    requires IsRun(h) && k < |h.moves|
    ensures IsRound(h.p, h.stages[k], h.moves[k], h.stages[k + 1])
  {
  }

  /** Some round of the run computed the row that was cut, its width and its test. */
  ghost predicate MadeBy(h: History, c: Cut, j: nat)
    requires IsRun(h) && j < |h.moves|
  {
    IsTestedRowAndMore(h, j) && c.probe == h.moves[j].probe && c.width == h.moves[j].G
    && c.row == AddAll(c.probe.row, Added(h, j))
  }

  /** Every cut that is not narrower than 1 relies on a test of the row as it was before the multiples in
      Added were added to it. So it is risky if and only if they make a difference. */
  lemma {:induction false} CutsRelyOnTests(h: History, k: nat, n: nat)
    requires IsRun(h) && k < |h.stages| && n < |h.stages[k].cuts| && h.stages[k].cuts[n].width >= 1.0
    ensures exists j: nat ::
              && j < k && j < |h.moves| && MadeBy(h, h.stages[k].cuts[n], j)
              && (h.stages[k].cuts[n].Risky() <==> AddAll(h.moves[j].probe.row, Added(h, j)) != h.moves[j].probe.row)
    decreases k
  {
    hide IsRound, Started, Sound, Inside, AddAll, Added, DistinctRows;
    var c := h.stages[k].cuts[n];
    if k == 0 {
      StartCutsAreNarrow(h.p, h.B0, h.first, h.stages[0]);
    } else {
      var g, mv, t := h.stages[k - 1], h.moves[k - 1], h.stages[k];
      RoundFacts(h, k - 1);
      RunIsSound(h, k - 1);
      LastCut(h.p, g, mv, t);
      if n < |g.cuts| {
        assert g.cuts[n] == c;
        CutsRelyOnTests(h, k - 1, n);
      } else {
        SinceTheTest(h, k - 1);
        assert MadeBy(h, c, k - 1);
      }
    }
  }

  lemma StartCutsAreNarrow(p: Problem, B0: seq<Row>, first: Move, g: Stage)
    requires Started(p, B0, first, g)
    ensures forall n :: 0 <= n < |g.cuts| ==> g.cuts[n].width < 1.0
  {
  }

  lemma LastCut(p: Problem, g: Stage, mv: Move, t: Stage)
    requires Sound(p, g) && IsRound(p, g, mv, t)
    ensures g.cuts <= t.cuts && |t.cuts| <= |g.cuts| + 1
    ensures |t.cuts| > |g.cuts| ==>
              var c := t.cuts[|g.cuts|];
              c.row == NewRow(p, g, mv.m) && c.width == mv.G && c.probe == mv.probe
  {
    hide Inside, IsWidth, ConstantOn, PairReduced, NoBetterMultiple, RoundedMinimum, Chosen;
    if g.i + 1 == g.z {
      AfterZeroRow(p, g, mv);
    }
  }
}
