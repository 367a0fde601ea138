/** `isl_tab_compute_reduced_basis`: generalized basis reduction (Cook et al., with epsilon 1/4). */
module BasisReduction {
  import opened Vectors
  import opened Widths
  import opened Tableau
  import opened TabLp
  import opened FixedValue
  import opened Lattice
  import opened ReductionInvariant
  import opened ReductionRun
  import opened ReductionSteps
  import opened Termination
  import RationalPolytopes

  /** The fields of `struct isl_tab` that the reduction uses; `basis` is the linear part. */
  class Tab {
    const dim: nat
    const halves: seq<Half>
    const nUnbounded: nat
    const empty: bool
    var basis: seq<Row>
    var nZero: nat

    constructor (dim: nat, halves: seq<Half>, nUnbounded: nat, basis: seq<Row>, empty: bool, nZero: nat)
      ensures this.dim == dim && this.halves == halves && this.nUnbounded == nUnbounded
      ensures this.basis == basis && this.empty == empty && this.nZero == nZero
    {
      this.dim := dim;
      this.halves := halves;
      this.nUnbounded := nUnbounded;
      this.basis := basis;
      this.empty := empty;
      this.nZero := nZero;
    }
  }

  datatype Outcome =
    | Unchanged        // nothing to reduce
    | Reduced          // the loop ran to its end
    | FirstDirection   // stopped early by gbr_only_first
    | NoPoints         // a cut left nothing

  /** The state of a run: the tableau and its basis, the LP, and the local variables F and i. */
  ghost function View(tab: Tab, lp: Lp, n: nat, z0: nat, F: seq<real>, i: nat): State
    reads tab, lp
  {
    State(tab.dim, n, 2 * |tab.halves|, z0, tab.basis, F, tab.nZero, i,
          lp.con, lp.conOffset, lp.neq, if lp.neq <= |lp.stack| then lp.stack[..lp.neq] else [])
  }

  /** The LP belongs to the tableau, has room for every constraint of the run, and is exact. */
  ghost predicate Wired(tab: Tab, lp: Lp)
    reads lp
  {
    && lp.dim == tab.dim == |lp.stack|
    && lp.maxCon == 2 * |tab.halves| + 3 * tab.dim + 1
    && Exact(lp.solver, lp.dim)
  }

  /** The state of the implementation is the loop head g of a run. */
  ghost predicate Tracks(s: State, p: Problem, g: Stage) {
    && p.dim == s.dim && p.z0 == s.z0 && p.n == s.nBounded
    && g.B == s.B && g.z == s.z && g.i == s.i
    && g.end == Going
    && Inside(p.P0, g.cuts) == s.P()
  }

  /** What a back-up has saved is known to the run. */
  ghost predicate Carries(s: State, g: Stage, useSaved: bool, FSaved: real, fixedSaved: bool, probe: Probe) {
    if useSaved then g.saved == Test(probe) && ProbeOf(s.P(), probe, FSaved, fixedSaved) else g.saved == Nothing
  }

  lemma TracksFits(s: State, p: Problem, g: Stage)
    requires Sized(s) && Tracks(s, p, g) && s.z <= s.i + 1
    ensures Fits(p, g) && (s.i + 1 < s.nBounded ==> MayGoOn(p, g))
  {
  }

  /** `save_alpha` into the first n places of a buffer. */
  method SaveAlpha(lp: Lp, first: int, n: nat, buffer: seq<real>) returns (saved: seq<real>)
    requires n <= |buffer| && 0 <= lp.conOffset + first && lp.conOffset + first + n <= |lp.dual|
    ensures |saved| == |buffer|
    ensures forall j :: 0 <= j < n ==> saved[j] == -lp.dual[lp.conOffset + first + j]
  {
    saved := buffer;
    for j := 0 to n
      invariant |saved| == |buffer|
      invariant forall k :: 0 <= k < j ==> saved[k] == -lp.dual[lp.conOffset + first + k]
    {
      var a := lp.GetAlpha(first + j);
      saved := saved[j := a];
    }
  }

  /** Lines 171-177: what the solved program tells. */
  method ReadSolution(lp: Lp, row: nat, i: nat, buffer: seq<real>)
    returns (FNew: real, alpha: real, fixed: bool, saved: seq<real>)
    requires i <= |buffer| && lp.conOffset + row < |lp.dual| && i <= lp.conOffset + row
    ensures FNew == -lp.opt && alpha == -lp.dual[lp.conOffset + row] && fixed == lp.isFixed
    ensures |saved| == |buffer|
    ensures forall j :: 0 <= j < i ==> saved[j] == -lp.dual[lp.conOffset + row - i + j]
  {
    FNew := lp.GetObjVal();
    fixed := lp.isFixed;
    alpha := lp.GetAlpha(row);
    saved := buffer;
    if i > 0 {
      saved := SaveAlpha(lp, row - i, i, saved);
    }
  }

  /** Lines 166-177: solve for obj with row r pushed. */
  method PushAndSolve(lp: Lp, r: Row, obj: Row, i: nat, z0: nat, buffer: seq<real>)
    returns (row: nat, FNew: real, alpha: real, fixed: bool, saved: seq<real>)
    requires Exact(lp.solver, lp.dim) && lp.neq < |lp.stack| && |lp.con| + 1 < lp.maxCon
    requires lp.neq + z0 == i <= |buffer| && z0 <= lp.conOffset && |lp.con| == lp.conOffset + lp.neq
    requires Nonempty(lp.con + [RowEq(r)], lp.dim) && BoundedBelow(lp.con + [RowEq(r)], lp.dim, obj)
    modifies lp
    ensures row == old(lp.neq) && lp.neq == row + 1 && lp.conOffset == old(lp.conOffset)
    ensures lp.con == old(lp.con) + [RowEq(r)] && lp.stack == old(lp.stack)[row := |old(lp.con)|]
    ensures Minimum(lp.con, lp.dim, obj, lp.answer)
    ensures FNew == -lp.answer.opt && |lp.answer.dual| == |lp.con| && alpha == -lp.answer.dual[|lp.con| - 1]
    ensures |saved| == |buffer| && |lp.dual| >= lp.conOffset
    ensures forall j :: z0 <= j < i ==> saved[j] == -lp.answer.dual[lp.conOffset + j - z0]
    ensures fixed <==> LooksFixed(obj, lp.answer.x, lp.answer.y, -FNew)
  {
    hide Exact, Minimum, LooksFixed, Nonempty, BoundedBelow;
    row := lp.AddRow(r);
    lp.SetObj(obj);
    var unbounded := lp.Solve();
    assert !unbounded;
    SavedSpan(lp.answer, lp.con, lp.dim, lp.obj, lp.dual, lp.neq);
    FNew, alpha, fixed, saved := ReadSolution(lp, row, i, buffer);
    SavedDuals(saved, lp.dual, lp.answer.dual, lp.conOffset, row, i, z0);
  }

  /** Lines 166-181: solve for row i + 1 with row i pushed, then pop it. */
  method SolveWithRow(tab: Tab, lp: Lp, n: nat, z0: nat, F: seq<real>, i: nat, buffer: seq<real>)
    returns (row: nat, FNew: real, alpha: real, fixed: bool, saved: seq<real>)
    requires Wired(tab, lp) && Core(View(tab, lp, n, z0, F, i))
    requires tab.nZero <= i && i + 1 < n && |buffer| == n
    modifies lp
    ensures View(tab, lp, n, z0, F, i) == old(View(tab, lp, n, z0, F, i)) && Wired(tab, lp)
    ensures Minimum(lp.con + [RowEq(tab.basis[i])], lp.dim, tab.basis[i + 1], lp.answer)
    ensures FNew == -lp.answer.opt && alpha == -lp.answer.dual[|lp.con|] && |saved| == n
    ensures forall j :: tab.nZero <= j < i ==> saved[j] == -lp.answer.dual[lp.conOffset + j - z0]
    ensures fixed <==> LooksFixed(tab.basis[i + 1], lp.answer.x, lp.answer.y, -FNew)
    ensures row == i - z0 && |lp.dual| >= lp.conOffset
  {
    hide Exact, Core, Minimum, LooksFixed, Nonempty, BoundedBelow, PolyOf, Dot;
    ghost var s := View(tab, lp, n, z0, F, i);
    CoreSizes(s);
    CanSolvePushed(s);
    row, FNew, alpha, fixed, saved := PushAndSolve(lp, tab.basis[i], tab.basis[i + 1], i, z0, buffer);
    lp.DelRow();
    assert lp.con == s.con;
    assert lp.stack[..lp.neq] == s.stack;
  }

  /** alpha_buffer[0], alpha_buffer[1] and which of them alpha_saved points to. */
  datatype Buffers = Buffers(first: seq<real>, second: seq<real>, savedInFirst: bool)
  {
    function Saved(): seq<real> { if savedInFirst then first else second }

    function WithSaved(saved: seq<real>): Buffers {
      if savedInFirst then this.(first := saved) else this.(second := saved)
    }

    predicate Sized(n: nat) { |first| == |second| == n }
  }

  /** Lines 151-182: the width of row i + 1 given the rows up to i. */
  method EvaluateNext(tab: Tab, lp: Lp, n: nat, z0: nat, F: seq<real>, i: nat, buffers: Buffers,
                      useSaved: bool, FSaved: real, fixedSaved: bool, ghost savedProbe: Probe)
    returns (row: nat, FNew: real, alpha: real, fixed: bool, buffers': Buffers, ghost probe: Probe)
    requires Wired(tab, lp) && Head(View(tab, lp, n, z0, F, i), useSaved, FSaved, buffers.Saved())
    requires i + 1 < n && buffers.Sized(n)
    requires useSaved ==> |lp.dual| >= lp.conOffset
    requires useSaved ==> ProbeOf(View(tab, lp, n, z0, F, i).P(), savedProbe, FSaved, fixedSaved)
    modifies lp
    ensures Wired(tab, lp) && buffers'.Sized(n)
    ensures View(tab, lp, n, z0, F, i) == old(View(tab, lp, n, z0, F, i))
    ensures i + 1 < |F| && Evaluated(View(tab, lp, n, z0, F[i + 1 := FNew], i), FNew, alpha, buffers'.Saved())
    ensures ProbeOf(View(tab, lp, n, z0, F, i).P(), probe, FNew, fixed)
    ensures i + 1 < |tab.basis| && if useSaved then probe == savedProbe else probe.row == tab.basis[i + 1]
    ensures tab.nZero <= i ==> row == i - z0 && |lp.dual| >= lp.conOffset
  {
    hide Exact, Core, Minimum, Head, Evaluated, Nonempty, BoundedBelow, PolyOf, LooksFixed, Dot;
    ghost var s := View(tab, lp, n, z0, F, i);
    HeadSizes(s, useSaved, FSaved, buffers.Saved());
    buffers' := buffers;
    if i + 1 == tab.nZero {
      row := 0;
      CanSolveRow(s, i + 1);
      lp.SetObj(tab.basis[i + 1]);
      var unbounded := lp.Solve();
      assert !unbounded;
      FNew := lp.GetObjVal();
      fixed := lp.isFixed;
      alpha := 0.0;
      probe := Probe(tab.basis[i + 1], lp.answer.x, lp.answer.y);
      EvaluatedPlain(s, lp.answer, buffers.Saved());
      AnswerProbe(lp.con, lp.dim, tab.basis[i + 1], lp.answer, s.P(), FNew, fixed);
    } else if useSaved {
      row := lp.neq;
      FNew := FSaved;
      fixed := fixedSaved;
      alpha := buffers.Saved()[i];
      probe := savedProbe;
      EvaluatedSaved(s, FSaved, buffers.Saved());
    } else {
      var saved;
      row, FNew, alpha, fixed, saved := SolveWithRow(tab, lp, n, z0, F, i, buffers.Saved());
      buffers' := buffers.WithSaved(saved);
      probe := Probe(tab.basis[i + 1], lp.answer.x, lp.answer.y);
      EvaluatedSolved(s, lp.answer, alpha, saved);
      AnswerProbe(lp.con + [RowEq(tab.basis[i])], lp.dim, tab.basis[i + 1], lp.answer, s.P(), FNew, fixed);
    }
  }

  /** Lines 193-204: solve for row i + 1 plus m times row i. */
  method Try(tab: Tab, lp: Lp, n: nat, z0: nat, F: seq<real>, i: nat, row: nat, m: int, buffer: seq<real>)
    returns (G: real, fixed: bool, saved: seq<real>, ghost probe: Probe)
    requires Wired(tab, lp) && Core(View(tab, lp, n, z0, F, i))
    requires tab.nZero <= i && i + 1 < n && |buffer| == n
    requires row == i - z0 && |lp.dual| >= lp.conOffset
    modifies lp
    ensures View(tab, lp, n, z0, F, i) == old(View(tab, lp, n, z0, F, i)) && Wired(tab, lp)
    ensures |saved| == n && |lp.dual| >= lp.conOffset
    ensures i + 1 < |tab.basis| && |tab.basis[i]| == |tab.basis[i + 1]|
    ensures var s := View(tab, lp, n, z0, F, i);
            && z0 <= i && Optimal(s.P(), s.B[z0..i], saved[z0..i], Combine(s.B[i + 1], m, s.B[i]), G)
            && ProbeOf(s.P(), probe, G, fixed)
    ensures probe.row == Combine(tab.basis[i + 1], m, tab.basis[i])
  {
    hide Exact, Core, Minimum, Nonempty, BoundedBelow, PolyOf, LooksFixed, Dot, Optimal;
    ghost var s := View(tab, lp, n, z0, F, i);
    CoreSizes(s);
    var b := Combine(tab.basis[i + 1], m, tab.basis[i]);
    CanSolveCombined(s, m);
    lp.SetObj(b);
    var unbounded := lp.Solve();
    assert !unbounded;
    G := lp.GetObjVal();
    fixed := lp.isFixed;
    probe := Probe(b, lp.answer.x, lp.answer.y);
    saved := buffer;
    if i > 0 {
      saved := SaveAlpha(lp, row - i, i, saved);
    }
    SavedSpan(lp.answer, lp.con, lp.dim, b, lp.dual, lp.neq);
    Trial(s, m, lp.answer, saved);
    AnswerProbe(lp.con, lp.dim, b, lp.answer, s.P(), G, fixed);
  }

  /** Row number r of the LP is row z0 + r of the basis. */
  lemma SavedDuals(saved: seq<real>, dual: seq<real>, duals: seq<real>, conOffset: nat, row: nat, i: nat, z0: nat)
    requires row + z0 == i <= |saved| && z0 <= conOffset && |dual| == conOffset + row + 2 && |duals| == |dual| - 1
    requires forall p :: 0 <= p < |duals| ==> dual[p] == duals[p]
    requires forall j :: 0 <= j < i ==> saved[j] == -dual[conOffset + row - i + j]
    ensures forall j :: z0 <= j < i ==> saved[j] == -duals[conOffset + j - z0]
  {
  }

  lemma SavedSpan(answer: Solution, con: seq<Con>, dim: nat, obj: Row, dual: seq<real>, neq: nat)
    requires Minimum(con, dim, obj, answer) && (neq > 0 ==> dual == answer.dual + [0.0])
    ensures |answer.dual| == |con|
    ensures neq > 0 ==> |dual| == |con| + 1 && forall p :: 0 <= p < |con| ==> dual[p] == answer.dual[p]
  {
  }

  /** The choices made so far are those of the run. */
  lemma ChosenNow(s: State, p: Problem, g: Stage, mv: Move, saved: seq<real>)
    requires Sized(s) && Tracks(s, p, g) && s.z <= s.i + 1 < s.nBounded && s.i < |s.F|
    requires Combined(Sheared(s, mv.m), mv.G, saved) && mv.F == s.F[s.i]
    requires s.i + 1 == s.z ==> mv.m == 0
    requires ProbeOf(s.P(), mv.probe, mv.G, mv.fixed)
    requires mv.probe.row == Sheared(s, mv.m).B[s.i + 1]
             || if g.saved.Test? then mv.probe == g.saved.probe else mv.probe.row == s.B[s.i + 1]
    ensures MayGoOn(p, g) && Chosen(p, g, mv)
    ensures Tracks(Sheared(s, mv.m), p, WithMultiple(p, g, mv))
  {
    hide IsWidth, NoBetterMultiple, ProbeOf, Optimal, PolyOf, Inside;
    TracksFits(s, p, g);
    var t := Sheared(s, mv.m);
    assert t.P() == s.P();
    assert t.B[s.z0..s.i] == s.B[s.z0..s.i];
    CombinedKnows(t, mv.G, saved);
  }

  lemma CombinedKnows(s: State, FNew: real, saved: seq<real>)
    requires Combined(s, FNew, saved)
    ensures Sized(s) && s.i + 1 < s.nBounded
    ensures IsWidth(s.P(), s.B[s.z0..s.i], s.B[s.i + 1], FNew) && IsWidth(s.P(), s.B[s.z0..s.i], s.B[s.i], s.F[s.i])
    ensures s.z <= s.i ==> NoBetterMultiple(s.P(), s.B[s.z0..s.i], s.B[s.i], s.B[s.i + 1], FNew)
  {
  }

  /** Lines 184-218: add the best multiple of row i to row i + 1. */
  method CombineRows(tab: Tab, lp: Lp, n: nat, z0: nat, F: seq<real>, i: nat, row: nat, FNext: real, alpha: real,
                     fixedNext: bool, buffers: Buffers, ghost probeNext: Probe)
    returns (FNew: real, fixed: bool, buffers': Buffers, ghost probe: Probe, ghost m: int)
    requires Wired(tab, lp) && Evaluated(View(tab, lp, n, z0, F, i), FNext, alpha, buffers.Saved())
    requires buffers.Sized(n) && Sized(View(tab, lp, n, z0, F, i)) && i + 1 < |tab.basis|
    requires ProbeOf(View(tab, lp, n, z0, F, i).P(), probeNext, FNext, fixedNext)
    requires tab.nZero <= i ==> row == i - z0 && |lp.dual| >= lp.conOffset
    modifies lp, tab`basis
    ensures Wired(tab, lp) && buffers'.Sized(n)
    ensures View(tab, lp, n, z0, F, i) == Sheared(old(View(tab, lp, n, z0, F, i)), m)
    ensures i + 1 == tab.nZero ==> m == 0
    ensures Combined(View(tab, lp, n, z0, F, i), FNew, buffers'.Saved())
    ensures ProbeOf(View(tab, lp, n, z0, F, i).P(), probe, FNew, fixed)
    ensures probe == probeNext || probe.row == tab.basis[i + 1]
    ensures tab.nZero <= i ==> |lp.dual| >= lp.conOffset
  {
    hide Exact, Core, Evaluated, Combined, PolyOf, Dot, Optimal, ProbeOf;
    ghost var s := View(tab, lp, n, z0, F, i);
    EvaluatedSizes(s, FNext, alpha, buffers.Saved());
    FNew, fixed, buffers', probe := FNext, fixedNext, buffers, probeNext;
    var mu0, mu1 := alpha.Floor, Ceil(alpha);
    var tmp;
    if mu0 == mu1 {
      tmp := mu0;
      CombinedExactly(s, FNext, alpha, buffers.Saved());
    } else {
      var G0, fixed0, first, G1, fixed1, second;
      ghost var probe0, probe1;
      G0, fixed0, first, probe0 := Try(tab, lp, n, z0, F, i, row, mu0, buffers.first);
      G1, fixed1, second, probe1 := Try(tab, lp, n, z0, F, i, row, mu1, buffers.second);
      CombinedByTrial(s, FNext, alpha, buffers.Saved(), G0, first, G1, second);
      if G0 < G1 {
        tmp, FNew, fixed, probe := mu0, G0, fixed0, probe0;
      } else {
        tmp, FNew, fixed, probe := mu1, G1, fixed1, probe1;
      }
      buffers' := Buffers(first, second, G0 < G1);
    }
    m := tmp;
    tab.basis := tab.basis[i + 1 := Combine(tab.basis[i + 1], tmp, tab.basis[i])];
    assert View(tab, lp, n, z0, F, i) == Sheared(s, tmp);
  }

  /** Lines 141-147, 221-227 and 253-259: row r is fixed; unless its width is zero already, the LP is
      cut to its rounded minimum. */
  method MakeZeroRow(tab: Tab, lp: Lp, n: nat, z0: nat, F: seq<real>, i: nat, r: nat,
                     ghost p: Problem, ghost g: Stage, ghost mv: Move)
    returns (empty: bool, F': seq<real>, ghost g': Stage)
    requires Wired(tab, lp) && Core(View(tab, lp, n, z0, F, i)) && Sized(View(tab, lp, n, z0, F, i))
    requires Tracks(View(tab, lp, n, z0, F, i), p, g)
    requires r == tab.nZero && i <= r <= i + 1 && r < n
    requires IsWidth(View(tab, lp, n, z0, F, i).P(), tab.basis[z0..i], tab.basis[r], F[r]) && mv.G == F[r]
    modifies lp, tab`nZero
    ensures Wired(tab, lp) && g.z < |g.B| && g' == Closed(p, g, mv)
    ensures empty <==> g'.end == Emptied
    ensures tab.nZero == g'.z
    ensures !empty ==> Core(View(tab, lp, n, z0, F', i)) && tab.nZero == r + 1
    ensures !empty ==> Tracks(View(tab, lp, n, z0, F', i), p, g')
    ensures !empty ==> (var s := View(tab, lp, n, z0, F', i); Sized(s) && IsWidth(s.P(), s.B[z0..r], s.B[r], 0.0))
    ensures !empty ==> F' == F[r := 0.0]
  {
    hide Exact, Core, PolyOf, Dot, IsWidth, ConstantOn, Meets, AtMinimum, SmallestAt, Lowest, Nonempty, Closed, Tracks;
    ghost var s := View(tab, lp, n, z0, F, i);
    CoreSizes(s);
    ReadyToCut(s, r, F[r]);
    F' := F[r := 0.0];
    empty := false;
    if F[r] != 0.0 {
      ghost var x := MinimizerOnPairs(lp.con, lp.dim, tab.basis[r]);
      CutOfFreeRow(lp.solver, lp.calls + 1, lp.con, lp.dim, tab.basis[r], x);
      var failed;
      ghost var h;
      failed, empty, h := lp.Cut(tab.basis[r]);
      g' := CutTracks(s, p, g, mv, x);
      if empty {
        return;
      }
      CutMakesZeroRow(s, r, CutAt(tab.basis[r], x));
      CoreSizes(AfterCut(s, r, CutAt(tab.basis[r], x)));
    } else {
      assert F' == F;
      AlreadyZero(s, r);
      g' := ZeroTracks(s, p, g, mv);
    }
    tab.nZero := tab.nZero + 1;
  }

  /** Closing row n_zero in the run is cutting the tableau. */
  lemma CutTracks(s: State, p: Problem, g: Stage, mv: Move, x: Point) returns (g': Stage)
    requires Sized(s) && Tracks(s, p, g) && s.z < |s.B| && s.z < |s.F| && mv.G != 0.0
    requires x in s.P() && AtMinimum(s.P(), s.B[s.z], x)
    ensures g.z < |g.B| && g' == Closed(p, g, mv)
    ensures g'.end == Emptied <==> !Meets(s.P(), CutAt(s.B[s.z], x))
    ensures g'.z == if g'.end == Emptied then s.z else s.z + 1
    ensures g'.end != Emptied ==> Tracks(AfterCut(s, s.z, CutAt(s.B[s.z], x)), p, g')
  {
    var P, row, h := s.P(), s.B[s.z], CutAt(s.B[s.z], x);
    g' := Closed(p, g, mv);
    RoundedMinimumAt(P, row, x);
    var cut := Cut(g.z, row, RoundedMinimum(P, row), mv.G, mv.probe);
    InsideMore(p.P0, g.cuts, cut);
    PolyOfCut(s.con, s.dim, h);
    assert forall z: Point :: Sat(h, z) <==> Dot(row, z) == cut.value as real;
    assert Inside(p.P0, g.cuts + [cut]) == AfterCut(s, s.z, h).P();
    if Inside(p.P0, g.cuts + [cut]) != iset{} {
      var z :| z in Inside(p.P0, g.cuts + [cut]);
      assert z in P && Sat(h, z);
    }
  }

  lemma ZeroTracks(s: State, p: Problem, g: Stage, mv: Move) returns (g': Stage)
    requires Sized(s) && Tracks(s, p, g) && s.z < |s.B| && mv.G == 0.0
    ensures g.z < |g.B| && g' == Closed(p, g, mv) && g'.end == Going && g'.z == s.z + 1
    ensures Tracks(s.(z := s.z + 1), p, g')
  {
    g' := Closed(p, g, mv);
    assert s.(z := s.z + 1).P() == s.P();
  }

  datatype Next = Continue | StopFirst | Empty

  /** Lines 220-228: row i + 1 may follow a zero row i. */
  method CutIfFixed(tab: Tab, lp: Lp, n: nat, z0: nat, F: seq<real>, i: nat, FNew: real, fixed: bool,
                    buffers: Buffers, ghost p: Problem, ghost g: Stage, ghost mv: Move)
    returns (empty: bool, F': seq<real>, ghost g': Stage)
    requires Wired(tab, lp) && Combined(View(tab, lp, n, z0, F, i), FNew, buffers.Saved())
    requires Tracks(View(tab, lp, n, z0, F, i), p, g) && mv.G == FNew && mv.fixed == fixed
    modifies lp, tab`nZero
    ensures Wired(tab, lp) && g.z <= g.i + 1 < |g.B|
    ensures g' == if g.i + 1 == g.z && fixed then Closed(p, g, mv) else g
    ensures empty <==> g'.end == Emptied
    ensures tab.nZero == g'.z
    ensures !empty ==> Tracks(View(tab, lp, n, z0, F', i), p, g')
    ensures !empty ==> CutDone(View(tab, lp, n, z0, F', i), FNew, buffers.Saved())
    ensures |F'| == |F| && i < |F| && F'[i] == F[i]
    ensures !empty && tab.nZero <= i ==>
              View(tab, lp, n, z0, F', i) == old(View(tab, lp, n, z0, F, i)) && lp.dual == old(lp.dual)
  {
    hide Exact, Core, PolyOf, Dot, IsWidth, Combined, CutDone, Closed, Inside;
    ghost var s := View(tab, lp, n, z0, F, i);
    CombinedSizes(s, FNew, buffers.Saved());
    CombinedIsDone(s, FNew, buffers.Saved());
    empty, F', g' := false, F, g;
    if i + 1 == tab.nZero && fixed {
      CombinedZero(s, FNew, buffers.Saved());
      empty, F', g' := MakeZeroRow(tab, lp, n, z0, F, i, i + 1, p, g, mv);
      if empty {
        F' := F;
      } else {
        ZeroRowIsDone(View(tab, lp, n, z0, F', i), FNew, buffers.Saved());
      }
    }
  }

  /** Lines 230-265. */
  method SwapOrAdvance(tab: Tab, lp: Lp, n: nat, z0: nat, F: seq<real>, i: nat, FNew: real, fixed: bool,
                       buffers: Buffers, onlyFirst: bool, ghost p: Problem, ghost g: Stage, ghost mv: Move)
    returns (next: Next, F': seq<real>, i': nat, useSaved: bool, FSaved: real, fixedSaved: bool, ghost g': Stage)
    requires Wired(tab, lp) && CutDone(View(tab, lp, n, z0, F, i), FNew, buffers.Saved()) && buffers.Sized(n)
    requires Tracks(View(tab, lp, n, z0, F, i), p, g) && g.saved == Nothing && p.onlyFirst == onlyFirst
    requires i < |F| && mv.F == F[i] && mv.G == FNew && mv.fixed == fixed
    requires tab.nZero <= i ==> ProbeOf(View(tab, lp, n, z0, F, i).P(), mv.probe, FNew, fixed)
    requires tab.nZero <= i ==> |lp.dual| >= lp.conOffset
    modifies lp, tab`basis, tab`nZero
    ensures Wired(tab, lp) && g.i + 1 < |g.B| && g' == SwappedOrAdvanced(p, g, mv)
    ensures tab.basis == g'.B && tab.nZero == g'.z
    ensures next == Empty <==> g'.end == Emptied
    ensures next == StopFirst <==> g'.end == Stopped
    ensures next == Continue ==> Head(View(tab, lp, n, z0, F', i'), useSaved, FSaved, buffers.Saved())
    ensures next == Continue ==> Tracks(View(tab, lp, n, z0, F', i'), p, g')
    ensures next == Continue ==> Carries(View(tab, lp, n, z0, F', i'), g', useSaved, FSaved, fixedSaved, mv.probe)
    ensures next == Continue && useSaved ==> |lp.dual| >= lp.conOffset
  {
    hide Exact, Core, PolyOf, Dot, IsWidth, ProbeOf, Combined, CutDone, Head, Closed, Inside;
    ghost var s := View(tab, lp, n, z0, F, i);
    CutDoneSizes(s, FNew, buffers.Saved());
    var FOld := F[i];
    next, F', i', g' := Continue, F, i, g;
    useSaved, FSaved, fixedSaved := false, 0.0, false;
    if 4.0 * FNew < 3.0 * FOld {
      tab.basis := tab.basis[i := tab.basis[i + 1]][i + 1 := tab.basis[i]];
      if i > tab.nZero {
        SwapBackKeepsHead(s, FNew, buffers.Saved());
        useSaved, FSaved, fixedSaved := true, FNew, fixed;
        lp.DelRow();
        i' := i - 1;
        assert View(tab, lp, n, z0, F, i') == SwappedBack(s);
        g' := g.(B := Exchanged(g.B, g.i), i := g.i - 1, saved := Test(mv.probe));
      } else {
        next, F', g' := SwapAtFirst(tab, lp, n, z0, F, i, FNew, fixed, buffers, onlyFirst, s, p,
                                    g.(B := Exchanged(g.B, g.i)), mv);
      }
    } else {
      Advance(tab, lp, n, z0, F, i, FNew, buffers, p, g);
      i', g' := i + 1, g.(i := g.i + 1);
    }
  }

  /** Lines 262-265. */
  method Advance(tab: Tab, lp: Lp, n: nat, z0: nat, F: seq<real>, i: nat, FNew: real, buffers: Buffers,
                 ghost p: Problem, ghost g: Stage)
    requires Wired(tab, lp) && CutDone(View(tab, lp, n, z0, F, i), FNew, buffers.Saved())
    requires Tracks(View(tab, lp, n, z0, F, i), p, g) && buffers.Sized(n)
    modifies lp
    ensures Wired(tab, lp)
    ensures Head(View(tab, lp, n, z0, F, i + 1), false, 0.0, buffers.Saved())
    ensures Tracks(View(tab, lp, n, z0, F, i + 1), p, g.(i := g.i + 1))
  {
    hide Exact, Core, PolyOf, Dot, IsWidth, Combined, CutDone, Head, Inside;
    ghost var s := View(tab, lp, n, z0, F, i);
    CutDoneSizes(s, FNew, buffers.Saved());
    AdvanceKeepsCore(s, FNew, buffers.Saved());
    CoreSizes(Advanced(s));
    var row := lp.AddRow(tab.basis[i]);
    assert lp.stack[..lp.neq] == s.stack + [|s.con|];
    assert View(tab, lp, n, z0, F, i + 1) == Advanced(s);
    PolyOfRow(s.con, s.dim, s.B[s.i]);
    CoreIsHead(Advanced(s), 0.0, buffers.Saved());
  }

  /** Lines 247-261: the basis has been swapped at the first nonzero row. */
  method SwapAtFirst(tab: Tab, lp: Lp, n: nat, z0: nat, F: seq<real>, i: nat, FNew: real, fixed: bool,
                     buffers: Buffers, onlyFirst: bool, ghost s: State, ghost p: Problem, ghost g: Stage, ghost mv: Move)
    returns (next: Next, F': seq<real>, ghost g': Stage)
    requires Wired(tab, lp) && Combined(s, FNew, buffers.Saved()) && buffers.Sized(n)
    requires Sized(s) && i == tab.nZero == s.z == s.i && i + 1 < s.nBounded
    requires View(tab, lp, n, z0, F, i) == s.(B := Exchanged(s.B, i))
    requires Tracks(View(tab, lp, n, z0, F, i), p, g) && g.saved == Nothing && p.onlyFirst == onlyFirst
    requires mv.G == FNew && mv.fixed == fixed
    modifies lp, tab`nZero
    ensures Wired(tab, lp) && g.z < |g.B|
    ensures g' == if onlyFirst && FNew < 2.0 then g.(end := Stopped) else if fixed then Closed(p, g, mv) else g
    ensures tab.basis == g'.B && tab.nZero == g'.z
    ensures next == Empty <==> g'.end == Emptied
    ensures next == StopFirst <==> g'.end == Stopped
    ensures next == Continue ==> Head(View(tab, lp, n, z0, F', i), false, 0.0, buffers.Saved())
    ensures next == Continue ==> Tracks(View(tab, lp, n, z0, F', i), p, g') && g'.saved == Nothing
  {
    hide Exact, Core, PolyOf, Dot, IsWidth, Combined, Head, Inside;
    CombinedSizes(s, FNew, buffers.Saved());
    SwapFirstKeepsCore(s, FNew, buffers.Saved());
    CoreSizes(SwappedFirst(s, FNew));
    F' := F[tab.nZero := FNew];
    assert View(tab, lp, n, z0, F', i) == SwappedFirst(s, FNew);
    g', next := g, Continue;
    if onlyFirst && F'[tab.nZero] < 2.0 {
      g', next := g.(end := Stopped), StopFirst;
      return;
    }
    if fixed {
      var empty;
      empty, F', g' := MakeZeroRow(tab, lp, n, z0, F', i, i, p, g, mv);
      if empty {
        next := Empty;
        return;
      }
    }
    CoreIsHead(View(tab, lp, n, z0, F', i), 0.0, buffers.Saved());
  }

  /** Line 138: the first width. */
  lemma FirstWidth(s: State, halves: seq<Half>, answer: Solution)
    requires Sized(s) && s.con == ProductOf(halves) && s.conOffset == s.base == |s.con|
    requires s.i == s.z == s.z0 && s.stack == []
    requires s.P() != iset{} && BoundedRows(s.P(), s.B, s.nBounded)
    requires Minimum(s.con, s.dim, s.B[s.z0], answer)
    requires s.F[s.z0] == -answer.opt
    ensures Core(s)
  {
    ProductSymmetric(halves);
    assert s.B[s.z0..s.z0] == [];
    SolvedWidth(s.con, s.dim, s.conOffset, s.B, s.z0, s.z, s.i, s.B[s.z0], answer);
  }

  /** Lines 132-148: the first width, and perhaps the first zero row. */
  method Begin(tab: Tab, lp: Lp, n: nat, i: nat, ghost p: Problem)
    returns (empty: bool, F: seq<real>, ghost first: Move, ghost g: Stage)
    requires Wired(tab, lp) && n <= tab.dim == |tab.basis| && Rectangular(tab.basis, tab.dim)
    requires i == tab.nZero <= 2 * |tab.halves| && i + 1 < n
    requires lp.con == ProductOf(tab.halves) && lp.conOffset == |lp.con| == 2 * |tab.halves| && lp.neq == 0
    requires p.P0 == PointsOf(tab.halves, tab.dim) && p.P0 != iset{} && BoundedRows(p.P0, tab.basis, n)
    requires p.dim == tab.dim && p.z0 == i && p.n == n
    modifies lp, tab`nZero
    ensures Wired(tab, lp) && Started(p, tab.basis, first, g)
    ensures g.B == tab.basis && g.i == i && tab.nZero == g.z && g.saved == Nothing && g.end != Stopped
    ensures empty <==> g.end == Emptied
    ensures !empty ==> Tracks(View(tab, lp, n, i, F, i), p, g)
    ensures !empty ==> forall saved :: |saved| == n ==> Head(View(tab, lp, n, i, F, i), false, 0.0, saved)
  {
    hide Exact, Core, PolyOf, Dot, IsWidth, Head, BoundedRows, Closed;
    FirstSolvable(tab.halves, tab.dim, tab.basis, n, i);
    lp.SetObj(tab.basis[i]);
    var unbounded := lp.Solve();
    assert !unbounded;
    var width := lp.GetObjVal();
    F := seq(n, _ => 0.0)[i := width];
    ghost var s := View(tab, lp, n, i, F, i);
    FirstWidth(s, tab.halves, lp.answer);
    g := AtEntry(p, tab.basis);
    first := Move(0, width, width, true, Probe(tab.basis[i], lp.answer.x, lp.answer.y));
    assert Inside(p.P0, g.cuts) == p.P0 == s.P();
    CoreWidth(s);
    assert tab.basis[i..i] == [];
    empty := false;
    if F[i] < 1.0 {
      ClosedFields(p, g, first);
      empty, F, g := MakeZeroRow(tab, lp, n, i, F, i, i, p, g, first);
      if empty {
        return;
      }
    }
    forall saved: seq<real> | |saved| == n ensures Head(View(tab, lp, n, i, F, i), false, 0.0, saved) {
      CoreIsHead(View(tab, lp, n, i, F, i), 0.0, saved);
    }
  }

  lemma CoreWidth(s: State)
    requires Core(s)
    ensures Sized(s) && IsWidth(s.P(), s.B[s.z0..s.i], s.B[s.i], s.F[s.i])
  {
  }

  lemma FirstSolvable(halves: seq<Half>, dim: nat, B: seq<Row>, n: nat, i: nat)
    requires PointsOf(halves, dim) != iset{} && i < n <= |B| && BoundedRows(PointsOf(halves, dim), B, n)
    ensures Nonempty(ProductOf(halves), dim) && BoundedBelow(ProductOf(halves), dim, B[i])
  {
    ProductSymmetric(halves);
    var x :| x in PointsOf(halves, dim);
    Solvable(ProductOf(halves), dim, B[i], x);
  }

  /** Lines 151-218: row i + 1 is evaluated, and the best multiple of row i added to it. */
  method CombineNext(tab: Tab, lp: Lp, n: nat, z0: nat, F: seq<real>, i: nat, buffers: Buffers, useSaved: bool,
                     FSaved: real, fixedSaved: bool, ghost probe: Probe, ghost p: Problem, ghost g: Stage)
    returns (F': seq<real>, FNew: real, fixed: bool, buffers': Buffers, ghost mv: Move)
    requires Wired(tab, lp) && buffers.Sized(n) && i + 1 < n
    requires Head(View(tab, lp, n, z0, F, i), useSaved, FSaved, buffers.Saved())
    requires Tracks(View(tab, lp, n, z0, F, i), p, g)
    requires Carries(View(tab, lp, n, z0, F, i), g, useSaved, FSaved, fixedSaved, probe)
    requires useSaved ==> |lp.dual| >= lp.conOffset
    modifies lp, tab`basis
    ensures Wired(tab, lp) && buffers'.Sized(n)
    ensures MayGoOn(p, g) && Chosen(p, g, mv)
    ensures Combined(View(tab, lp, n, z0, F', i), FNew, buffers'.Saved())
    ensures Tracks(View(tab, lp, n, z0, F', i), p, WithMultiple(p, g, mv))
    ensures i < |F'| && mv.G == FNew && mv.F == F'[i] && mv.fixed == fixed
    ensures ProbeOf(View(tab, lp, n, z0, F', i).P(), mv.probe, FNew, fixed)
    ensures tab.nZero <= i ==> |lp.dual| >= lp.conOffset
  {
    hide Exact, Core, PolyOf, Dot, IsWidth, ProbeOf, Combined, Head, Evaluated, Inside, Chosen;
    var row, alpha;
    ghost var s, pr, m := View(tab, lp, n, z0, F, i), probe, 0;
    HeadSizes(s, useSaved, FSaved, buffers.Saved());
    TracksFits(s, p, g);
    row, FNew, alpha, fixed, buffers', pr :=
      EvaluateNext(tab, lp, n, z0, F, i, buffers, useSaved, FSaved, fixedSaved, probe);
    F' := F[i + 1 := FNew];
    ghost var s1 := s.(F := F');
    assert View(tab, lp, n, z0, F', i) == s1 && s1.P() == s.P();
    EvaluatedSizes(s1, FNew, alpha, buffers'.Saved());
    FNew, fixed, buffers', pr, m := CombineRows(tab, lp, n, z0, F', i, row, FNew, alpha, fixed, buffers', pr);
    mv := Move(m, FNew, F'[i], fixed, pr);
    ChosenNow(s1, p, g, mv, buffers'.Saved());
  }

  /** One round of the loop, lines 150-266: it is a round of the textbook algorithm. */
  method Round(tab: Tab, lp: Lp, n: nat, z0: nat, F: seq<real>, i: nat, buffers: Buffers, useSaved: bool,
               FSaved: real, fixedSaved: bool, onlyFirst: bool, ghost probe: Probe, ghost p: Problem, ghost g: Stage)
    returns (next: Next, F': seq<real>, i': nat, buffers': Buffers, useSaved': bool, FSaved': real,
             fixedSaved': bool, ghost mv: Move, ghost g': Stage)
    requires Wired(tab, lp) && buffers.Sized(n) && i + 1 < n && p.onlyFirst == onlyFirst
    requires Head(View(tab, lp, n, z0, F, i), useSaved, FSaved, buffers.Saved())
    requires Tracks(View(tab, lp, n, z0, F, i), p, g)
    requires Carries(View(tab, lp, n, z0, F, i), g, useSaved, FSaved, fixedSaved, probe)
    requires useSaved ==> |lp.dual| >= lp.conOffset
    modifies lp, tab`basis, tab`nZero
    ensures Wired(tab, lp) && buffers'.Sized(n)
    ensures IsRound(p, g, mv, g')
    ensures tab.basis == g'.B && tab.nZero == g'.z
    ensures next == Empty <==> g'.end == Emptied
    ensures next == StopFirst <==> g'.end == Stopped
    ensures next == Continue ==> Head(View(tab, lp, n, z0, F', i'), useSaved', FSaved', buffers'.Saved())
    ensures next == Continue ==> Tracks(View(tab, lp, n, z0, F', i'), p, g')
    ensures next == Continue ==> Carries(View(tab, lp, n, z0, F', i'), g', useSaved', FSaved', fixedSaved', mv.probe)
    ensures next == Continue && useSaved' ==> |lp.dual| >= lp.conOffset
  {
    hide Exact, Core, PolyOf, Dot, IsWidth, ProbeOf, Combined, CutDone, Head, Evaluated, Inside, Closed, Chosen,
         SwappedOrAdvanced;
    var FNew, fixed, empty;
    F', FNew, fixed, buffers', mv := CombineNext(tab, lp, n, z0, F, i, buffers, useSaved, FSaved, fixedSaved, probe, p, g);
    ghost var g1 := WithMultiple(p, g, mv);
    next, i', useSaved', FSaved', fixedSaved' := Empty, i, false, 0.0, false;
    if g.i + 1 == g.z {
      ClosedFields(p, g1, mv);
    }
    empty, F', g' := CutIfFixed(tab, lp, n, z0, F', i, FNew, fixed, buffers', p, g1, mv);
    assert g' == FollowedUp(p, g, mv);
    if !empty {
      next, F', i', useSaved', FSaved', fixedSaved', g' :=
        SwapOrAdvance(tab, lp, n, z0, F', i, FNew, fixed, buffers', onlyFirst, p, g', mv);
    }
  }

  function OutcomeOf(h: History): Outcome
    requires h.stages != []
  {
    match Last(h).end
    case Emptied => NoPoints
    case Stopped => FirstDirection
    case Going => Reduced
  }

  /** The whole reduction. The loop of the source tests its condition after the body; it holds before the
      first round too. What is done is a run of the textbook algorithm, so all that is proved of runs
      holds for it; and it ends, for every input. */
  method ComputeReducedBasis(tab: Tab, solver: Solver, onlyFirst: bool) returns (outcome: Outcome, ghost h: History)
    requires |tab.basis| == tab.dim && Rectangular(tab.basis, tab.dim)
    requires tab.nZero <= 2 * |tab.halves| && RationalPolytopes.HalvesSized(tab.halves, tab.dim)
    requires Exact(solver, tab.dim)
    requires !tab.empty ==> PointsOf(tab.halves, tab.dim) != iset{}
    requires tab.nUnbounded <= tab.dim ==>
               BoundedRows(PointsOf(tab.halves, tab.dim), tab.basis, tab.dim - tab.nUnbounded)
    modifies tab
    ensures outcome == Unchanged <==> tab.empty || tab.dim - tab.nUnbounded <= old(tab.nZero) + 1
    ensures outcome == Unchanged ==> tab.basis == old(tab.basis) && tab.nZero == old(tab.nZero)
    ensures outcome != Unchanged ==>
              && h.p == Problem(PointsOf(tab.halves, tab.dim), tab.dim, old(tab.nZero), tab.dim - tab.nUnbounded, onlyFirst)
              && h.B0 == old(tab.basis)
              && IsRun(h)
              && Last(h).B == tab.basis && Last(h).z == tab.nZero
              && outcome == OutcomeOf(h) && (outcome == Reduced ==> Last(h).i + 1 == h.p.n)
    ensures outcome == Reduced ==>
              var n := tab.dim - tab.nUnbounded;
              && old(tab.nZero) <= tab.nZero <= n <= |tab.basis|
              && IsReduced(Inside(PointsOf(tab.halves, tab.dim), Last(h).cuts), tab.basis, old(tab.nZero), tab.nZero, n)
    ensures outcome == Reduced && tab.nZero < tab.dim - tab.nUnbounded ==>
              exists W :: W >= 1.0 && tab.nZero < |tab.basis|
                          && IsWidth(Inside(PointsOf(tab.halves, tab.dim), Last(h).cuts), [], tab.basis[tab.nZero], W)
    ensures outcome != Unchanged && NoRisk(Last(h).cuts) ==>
              && KeepsIntegers(PointsOf(tab.halves, tab.dim), Inside(PointsOf(tab.halves, tab.dim), Last(h).cuts))
              && (outcome == NoPoints ==> NoIntegerPoint(PointsOf(tab.halves, tab.dim)))
    ensures outcome == FirstDirection ==>
              && onlyFirst && tab.nZero < |tab.basis|
              && exists G :: G < 2.0 && IsWidth(Inside(h.p.P0, Last(h).cuts), [], tab.basis[tab.nZero], G)
  {
    hide Exact, PolyOf, Dot, IsWidth, ProbeOf, BoundedRows, IsReduced, KeepsIntegers, NoIntegerPoint, Head, Tracks, IsRound,
         Started, Inside, NoRisk, PointsOf, Rectangular, RationalPolytopes.HalvesSized;
    h := History(Problem(PointsOf(tab.halves, tab.dim), tab.dim, tab.nZero, 0, onlyFirst), tab.basis,
                 Move(0, 0.0, 0.0, false, Probe([], [], [])), [], []);
    if tab.empty {
      return Unchanged, h;
    }
    if tab.dim - tab.nUnbounded <= tab.nZero + 1 {
      return Unchanged, h;
    }
    var n := tab.dim - tab.nUnbounded;
    var z0: nat := tab.nZero;
    ghost var p := Problem(PointsOf(tab.halves, tab.dim), tab.dim, z0, n, onlyFirst);
    var lp := new Lp(tab.halves, tab.dim, solver);
    var i: nat := tab.nZero;
    var empty, F;
    ghost var g, first;
    empty, F, first, g := Begin(tab, lp, n, i, p);
    var next := Empty;
    if empty {
      h := History(p, h.B0, first, [g], []);
    } else {
      next, h := Loop(tab, lp, n, z0, F, onlyFirst, p, h.B0, first, g);
    }
    outcome := match next case Empty => NoPoints case StopFirst => FirstDirection case Continue => Reduced;
    Conclusions(h);
  }

  /** The loop, lines 150-266. */
  method Loop(tab: Tab, lp: Lp, n: nat, z0: nat, F0: seq<real>, onlyFirst: bool,
              ghost p: Problem, ghost B0: seq<Row>, ghost first: Move, ghost g0: Stage)
    returns (next: Next, ghost h: History)
    requires Wired(tab, lp) && p.P0 == PointsOf(tab.halves, tab.dim) && RationalPolytopes.HalvesSized(tab.halves, tab.dim)
    requires p.dim == tab.dim && p.n == n && p.onlyFirst == onlyFirst && Started(p, B0, first, g0)
    requires g0.B == tab.basis && g0.z == tab.nZero && g0.i == z0 && z0 < n && g0.saved == Nothing
    requires Tracks(View(tab, lp, n, z0, F0, z0), p, g0)
    requires forall saved :: |saved| == n ==> Head(View(tab, lp, n, z0, F0, z0), false, 0.0, saved)
    modifies lp, tab`basis, tab`nZero
    ensures IsRun(h) && h.p == p && h.B0 == B0
    ensures Last(h).B == tab.basis && Last(h).z == tab.nZero
    ensures next == Empty <==> Last(h).end == Emptied
    ensures next == StopFirst <==> Last(h).end == Stopped
    ensures next == Continue ==> Last(h).i + 1 == n
  {
    hide Exact, Head, Tracks, IsRound, Started, Inside, PointsOf, RationalPolytopes.HalvesSized, ProbeOf;
    Underway(View(tab, lp, n, z0, F0, z0), p, g0);
    h := History(p, B0, first, [g0], []);
    var buffers := Buffers(seq(n, _ => 0.0), seq(n, _ => 0.0), true);
    var useSaved, FSaved, fixedSaved := false, 0.0, false;
    var F := F0;
    var i: nat := z0;
    ghost var g, probe := g0, Probe([], [], []);
    ghost var rank := RunsEnd(p, tab.halves, B0, first, g0);
    next := Continue;
    while i < n - 1 && next == Continue
      invariant Wired(tab, lp) && buffers.Sized(n)
      invariant IsRun(h) && h.p == p && h.B0 == B0 && g == Last(h)
      invariant g.B == tab.basis && g.z == tab.nZero
      invariant Ends#[rank](p, g)
      invariant next == Empty <==> g.end == Emptied
      invariant next == StopFirst <==> g.end == Stopped
      invariant next == Continue ==> Head(View(tab, lp, n, z0, F, i), useSaved, FSaved, buffers.Saved())
      invariant next == Continue ==> Tracks(View(tab, lp, n, z0, F, i), p, g) && g.i == i < n
      invariant next == Continue ==> Carries(View(tab, lp, n, z0, F, i), g, useSaved, FSaved, fixedSaved, probe)
      invariant next == Continue && useSaved ==> |lp.dual| >= lp.conOffset
      decreases rank
    {
      ghost var mv, g';
      next, F, i, buffers, useSaved, FSaved, fixedSaved, mv, g' :=
        Round(tab, lp, n, z0, F, i, buffers, useSaved, FSaved, fixedSaved, onlyFirst, probe, p, g);
      rank := RankFalls(rank, p, g, mv, g');
      RunGoesOn(h, mv, g');
      h := h.(stages := h.stages + [g'], moves := h.moves + [mv]);
      g, probe := g', mv.probe;
      HeadIndex(View(tab, lp, n, z0, F, i), p, g, next == Continue, useSaved, FSaved, buffers.Saved());
    }
  }

  lemma Underway(s: State, p: Problem, g: Stage)
    requires Tracks(s, p, g)
    ensures g.end == Going
  {
  }

  lemma HeadIndex(s: State, p: Problem, g: Stage, going: bool, useSaved: bool, FSaved: real, saved: seq<real>)
    requires going ==> Head(s, useSaved, FSaved, saved) && Tracks(s, p, g)
    ensures going ==> g.i == s.i < s.nBounded
  {
    if going {
      HeadSizes(s, useSaved, FSaved, saved);
    }
  }

  lemma Conclusions(h: History)
    requires IsRun(h) && (Last(h).end == Going ==> Last(h).i + 1 == h.p.n)
    ensures OutcomeOf(h) == Reduced ==>
              && h.p.z0 <= Last(h).z <= h.p.n <= |Last(h).B| && 0 < h.p.n
              && IsReduced(Inside(h.p.P0, Last(h).cuts), Last(h).B, h.p.z0, Last(h).z, h.p.n)
    ensures OutcomeOf(h) == Reduced && Last(h).z < h.p.n ==>
              exists W :: W >= 1.0 && Last(h).z < |Last(h).B| && IsWidth(Inside(h.p.P0, Last(h).cuts), [], Last(h).B[Last(h).z], W)
    ensures NoRisk(Last(h).cuts) ==> KeepsIntegers(h.p.P0, Inside(h.p.P0, Last(h).cuts))
    ensures NoRisk(Last(h).cuts) && OutcomeOf(h) == NoPoints ==> NoIntegerPoint(h.p.P0)
    ensures OutcomeOf(h) == FirstDirection ==>
              && h.p.onlyFirst && Last(h).z < |Last(h).B|
              && exists G :: G < 2.0 && IsWidth(Inside(h.p.P0, Last(h).cuts), [], Last(h).B[Last(h).z], G)
  {
    hide IsRound, Started, IsWidth, Inside, IsReduced, KeepsIntegers, NoIntegerPoint, NoRisk;
    if OutcomeOf(h) == Reduced {
      RunReduces(h);
      OpenRowIsWide(h, |h.moves|);
    }
    if NoRisk(Last(h).cuts) {
      SafeEnd(h);
    }
    if OutcomeOf(h) == FirstDirection {
      StoppedIsNarrow(h);
    }
  }
}
