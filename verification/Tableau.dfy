/** The constraint list of the product tableau that `struct tab_lp` works on, what an exact LP
    solver answers about it, and how its answers give widths with their multipliers.

    The tableau describes pairs (x, y) of points of the input polytope; a row of the basis is
    added as the equality row.x == row.y. */
module Tableau {
  import opened Vectors
  import opened Widths

  datatype Kind = Equality | AtLeastZero

  /** One constraint of the input tableau: cst + coeffs.x is zero, or non-negative. */
  datatype Half = Half(kind: Kind, cst: int, coeffs: Row)

  /** One constraint of the product tableau, in the order they were added. */
  datatype Con =
    | Left(h: Half)     // on x
    | Right(h: Half)    // on y
    | RowEq(r: Row)     // r.x - r.y == 0

  ghost function HalfValue(h: Half, x: Point): real {
    h.cst as real + Dot(h.coeffs, x)
  }

  ghost predicate Sat(h: Half, x: Point) {
    if h.kind == Equality then HalfValue(h, x) == 0.0 else HalfValue(h, x) >= 0.0
  }

  ghost function Value(c: Con, x: Point, y: Point): real {
    match c
    case Left(h) => HalfValue(h, x)
    case Right(h) => HalfValue(h, y)
    case RowEq(r) => Diff(r, x, y)
  }

  ghost predicate Holds(c: Con, x: Point, y: Point) {
    match c
    case Left(h) => Sat(h, x)
    case Right(h) => Sat(h, y)
    case RowEq(r) => Diff(r, x, y) == 0.0
  }

  ghost predicate Feasible(con: seq<Con>, dim: nat, x: Point, y: Point) {
    && |x| == dim
    && |y| == dim
    && forall p :: 0 <= p < |con| ==> Holds(con[p], x, y)
  }

  ghost predicate Nonempty(con: seq<Con>, dim: nat) {
    exists x, y :: Feasible(con, dim, x, y)
  }

  // ----- What the solver answers -----------------------------------------------------------------

  /** A minimum, the optimal vertex it is reached at, and a multiplier for every constraint. */
  datatype Solution = Solution(opt: real, dual: seq<real>, x: Point, y: Point)

  ghost function Values(con: seq<Con>, x: Point, y: Point): (vs: seq<real>)
    ensures |vs| == |con|
  {
    seq(|con|, p requires 0 <= p < |con| => Value(con[p], x, y))
  }

  /** s is the minimum of obj.(x - y): the vertex is feasible and reaches it, and the objective
      row of the final tableau expresses obj.(x - y) as the minimum plus the multipliers times
      the constraints, with non-negative multipliers for inequalities. */
  ghost predicate Minimum(con: seq<Con>, dim: nat, obj: Row, s: Solution) {
    && Feasible(con, dim, s.x, s.y)
    && Diff(obj, s.x, s.y) == s.opt
    && |s.dual| == |con|
    && (forall p :: 0 <= p < |con| && !con[p].RowEq? && con[p].h.kind == AtLeastZero ==> s.dual[p] >= 0.0)
    && (forall x: Point, y: Point {:trigger Values(con, x, y)} :: |x| == dim && |y| == dim ==>
          Diff(obj, x, y) == s.opt + Sum(s.dual, Values(con, x, y)))
  }

  ghost predicate LowerBound(con: seq<Con>, dim: nat, obj: Row, M: real) {
    forall x, y :: Feasible(con, dim, x, y) ==> M <= Diff(obj, x, y)
  }

  ghost predicate BoundedBelow(con: seq<Con>, dim: nat, obj: Row) {
    exists M: real :: LowerBound(con, dim, obj, M)
  }

  /** The exact LP solver behind the tableau. The first argument numbers the calls, so an answer
      may depend on everything that happened before; which optimal vertex and which optimal
      multipliers it picks is left open. */
  datatype Solver = Solver(
    bounded: (nat, seq<Con>, Row) -> bool,
    minimum: (nat, seq<Con>, Row) -> Solution,
    lowest: (nat, seq<Con>, Row) -> bool,
    ceilOfMinimum: (nat, seq<Con>, Row) -> int,
    manifestlyZero: (nat, seq<Con>, Con) -> bool,
    empty: (nat, seq<Con>) -> bool)
  {
    /** Whether `isl_tab_min` answers isl_lp_ok for the objective row.x - row.y. */
    function Solves(n: nat, con: seq<Con>, obj: Row): bool { bounded(n, con, obj) }

    /** `isl_tab_min` with ISL_TAB_SAVE_DUAL, and `isl_tab_get_sample_value` after it. */
    function Minimize(n: nat, con: seq<Con>, obj: Row): Solution { minimum(n, con, obj) }

    /** Whether it answers isl_lp_ok for the objective row.x. */
    function HasLowest(n: nat, con: seq<Con>, row: Row): bool { lowest(n, con, row) }

    /** `isl_tab_min` without a denominator: the minimum of row.x is rounded up. */
    function MinimizeUp(n: nat, con: seq<Con>, row: Row): int { ceilOfMinimum(n, con, row) }

    /** `row_is_manifestly_zero` on the row of an added equality. */
    function Zero(n: nat, con: seq<Con>, c: Con): bool { manifestlyZero(n, con, c) }

    /** `tab->empty` */
    function Empty(n: nat, con: seq<Con>): bool { empty(n, con) }
  }

  ghost predicate SmallestAt(con: seq<Con>, dim: nat, row: Row, x: Point, y: Point) {
    Feasible(con, dim, x, y) && forall u, v :: Feasible(con, dim, u, v) ==> Dot(row, x) <= Dot(row, u)
  }

  ghost predicate VanishesOn(con: seq<Con>, dim: nat, c: Con) {
    forall x, y :: Feasible(con, dim, x, y) ==> Value(c, x, y) == 0.0
  }

  ghost predicate Lowest(con: seq<Con>, dim: nat, row: Row) {
    exists x, y :: SmallestAt(con, dim, row, x, y)
  }

  ghost predicate Exact(solver: Solver, dim: nat) {
    && (forall n: nat, con: seq<Con>, obj: Row :: solver.Solves(n, con, obj) <==>
          Nonempty(con, dim) && BoundedBelow(con, dim, obj))
    && (forall n: nat, con: seq<Con>, row: Row :: solver.HasLowest(n, con, row) <==> Lowest(con, dim, row))
    && (forall n: nat, con: seq<Con>, obj: Row :: Nonempty(con, dim) && BoundedBelow(con, dim, obj) ==>
          Minimum(con, dim, obj, solver.Minimize(n, con, obj)))
    && (forall n: nat, con: seq<Con>, row: Row, x: Point, y: Point :: SmallestAt(con, dim, row, x, y) ==>
          solver.MinimizeUp(n, con, row) == Ceil(Dot(row, x)))
    && (forall n: nat, con: seq<Con>, c: Con :: solver.Zero(n, con, c) ==> VanishesOn(con, dim, c))
    && (forall n: nat, con: seq<Con> :: solver.Empty(n, con) <==> !Nonempty(con, dim))
  }

  // ----- The polytope and the rows in a constraint list ---------------------------------------------

  /** The points that satisfy every constraint on x. */
  ghost function PolyOf(con: seq<Con>, dim: nat): Poly {
    iset x: Point | |x| == dim && forall p :: 0 <= p < |con| && con[p].Left? ==> Sat(con[p].h, x)
  }

  /** Both halves of the product carry the same constraints. */
  ghost predicate Symmetric(con: seq<Con>) {
    forall h :: Left(h) in con <==> Right(h) in con
  }

  ghost function RowsOf(con: seq<Con>): (R: seq<Row>)
    ensures |R| <= |con|
  {
    if con == [] then []
    else
      var last := |con| - 1;
      if con[last].RowEq? then RowsOf(con[..last]) + [con[last].r] else RowsOf(con[..last])
  }

  /** The multipliers of the row equalities, negated as `get_alpha` does. */
  ghost function AlphasOf(con: seq<Con>, dual: seq<real>): (alpha: seq<real>)
    requires |dual| == |con|
    ensures |alpha| == |RowsOf(con)|
  {
    if con == [] then []
    else
      var last := |con| - 1;
      if con[last].RowEq? then AlphasOf(con[..last], dual[..last]) + [-dual[last]]
      else AlphasOf(con[..last], dual[..last])
  }

  lemma {:induction false} RowsHold(con: seq<Con>, x: Point, y: Point)
    ensures Agree(RowsOf(con), x, y) <==>
            forall p :: 0 <= p < |con| && con[p].RowEq? ==> Diff(con[p].r, x, y) == 0.0
  {
    if con == [] {
    } else {
      var last := |con| - 1;
      RowsHold(con[..last], x, y);
      assert con == con[..last] + [con[last]];
      if con[last].RowEq? {
        AgreeSnoc(RowsOf(con[..last]), con[last].r, x, y);
      }
    }
  }

  /** A feasible pair is two points of the polytope that agree on the rows. */
  lemma FeasibleIsAgreeing(con: seq<Con>, dim: nat, x: Point, y: Point)
    requires Symmetric(con)
    ensures Feasible(con, dim, x, y) <==>
            x in PolyOf(con, dim) && y in PolyOf(con, dim) && Agree(RowsOf(con), x, y)
  {
    RowsHold(con, x, y);
    if Feasible(con, dim, x, y) {
      forall p | 0 <= p < |con| && con[p].Left? ensures Sat(con[p].h, x) && Sat(con[p].h, y) {
        assert Holds(con[p], x, y);
        assert Right(con[p].h) in con;
        var q :| 0 <= q < |con| && con[q] == Right(con[p].h);
        assert Holds(con[q], x, y);
      }
      forall p | 0 <= p < |con| && con[p].RowEq? ensures Diff(con[p].r, x, y) == 0.0 {
        assert Holds(con[p], x, y);
      }
    }
    if x in PolyOf(con, dim) && y in PolyOf(con, dim) && Agree(RowsOf(con), x, y) {
      forall p | 0 <= p < |con| ensures Holds(con[p], x, y) {
        if con[p].Right? {
          assert Left(con[p].h) in con;
          var q :| 0 <= q < |con| && con[q] == Left(con[p].h);
          assert Sat(con[q].h, y);
        }
      }
    }
  }

  /** On two points of the polytope the weighted constraints are at least the weighted rows. */
  lemma {:induction false} RowPart(con: seq<Con>, dual: seq<real>, x: Point, y: Point)
    requires |dual| == |con|
    requires forall p :: 0 <= p < |con| && !con[p].RowEq? ==>
               && Holds(con[p], x, y)
               && (con[p].h.kind == AtLeastZero ==> dual[p] >= 0.0)
    ensures Sum(dual, Values(con, x, y)) + Weighted(RowsOf(con), AlphasOf(con, dual), x, y) >= 0.0
  {
    hide Sum, Weighted, Dot, Holds, HalfValue;
    if con == [] {
      SumZero(dual, Values(con, x, y));
      WeightedAgree(RowsOf(con), AlphasOf(con, dual), x, y);
    } else {
      var last := |con| - 1;
      var c, d := con[last], dual[last];
      var front, duals := con[..last], dual[..last];
      RowPart(front, duals, x, y);
      var v := Value(c, x, y);
      assert dual == duals + [d] && Values(con, x, y) == Values(front, x, y) + [v];
      SumSnoc(duals, d, Values(front, x, y), v);
      if c.RowEq? {
        WeightedSnoc(RowsOf(front), c.r, AlphasOf(front, duals), -d, x, y);
        Cancels(Sum(duals, Values(front, x, y)), Weighted(RowsOf(front), AlphasOf(front, duals), x, y), d, v);
      } else {
        HeldTerm(c, x, y, d);
      }
    }
  }

  lemma HeldTerm(c: Con, x: Point, y: Point, d: real)
    requires !c.RowEq? && Holds(c, x, y) && (c.h.kind == AtLeastZero ==> d >= 0.0)
    ensures d * Value(c, x, y) >= 0.0
  {
    NonNegativeTerm(d, Value(c, x, y), c.h.kind == Equality);
  }

  lemma Cancels(p: real, q: real, d: real, v: real)
    requires p + q >= 0.0
    ensures (p + d * v) + (q + -d * v) >= 0.0
  {
    OppositeTerms(d, v);
  }

  lemma NonNegativeTerm(d: real, v: real, zero: bool)
    requires if zero then v == 0.0 else v >= 0.0 && d >= 0.0
    ensures d * v >= 0.0
  {
  }

  lemma OppositeTerms(d: real, v: real)
    ensures d * v + -d * v == 0.0
  {
  }

  lemma WeightedSwapped(R: seq<Row>, alpha: seq<real>, x: Point, y: Point)
    requires |alpha| == |R|
    ensures Weighted(R, alpha, y, x) == -Weighted(R, alpha, x, y)
  {
    SumNegated(alpha, Diffs(R, x, y), Diffs(R, y, x));
  }

  lemma {:induction false} SumNegated(alpha: seq<real>, ds: seq<real>, es: seq<real>)
    requires |alpha| == |ds| == |es|
    requires forall k :: 0 <= k < |ds| ==> es[k] == -ds[k]
    ensures Sum(alpha, es) == -Sum(alpha, ds)
  {
    if ds == [] {
    } else {
      var n := |ds| - 1;
      SumNegated(alpha[..n], ds[..n], es[..n]);
      assert alpha[n] * es[n] == -(alpha[n] * ds[n]);
    }
  }

  /** A solver answer is a width together with multipliers that prove it. */
  lemma MinimumIsOptimal(con: seq<Con>, dim: nat, obj: Row, s: Solution)
    requires Symmetric(con) && Minimum(con, dim, obj, s)
    ensures Optimal(PolyOf(con, dim), RowsOf(con), AlphasOf(con, s.dual), obj, -s.opt)
    ensures s.x in PolyOf(con, dim) && s.y in PolyOf(con, dim) && Agree(RowsOf(con), s.y, s.x)
  {
    var P, R, alpha := PolyOf(con, dim), RowsOf(con), AlphasOf(con, s.dual);
    forall x, y | x in P && y in P ensures Diff(obj, x, y) + Weighted(R, alpha, x, y) <= -s.opt {
      forall p | 0 <= p < |con| && !con[p].RowEq? ensures Holds(con[p], y, x) {
        if con[p].Right? {
          assert Left(con[p].h) in con;
          var q :| 0 <= q < |con| && con[q] == Left(con[p].h);
          assert Sat(con[q].h, x);
        }
      }
      RowPart(con, s.dual, y, x);
      assert Diff(obj, y, x) == s.opt + Sum(s.dual, Values(con, y, x));
      WeightedSwapped(R, alpha, x, y);
    }
    FeasibleIsAgreeing(con, dim, s.x, s.y);
    AgreeSymmetric(R, s.x, s.y);
    assert Diff(obj, s.y, s.x) == -s.opt;
  }

  /** A trailing block of rows: its multipliers are read off by position. */
  lemma {:induction false} AlphaAt(con: seq<Con>, dual: seq<real>, start: nat)
    requires |dual| == |con| && start <= |con|
    requires forall p :: start <= p < |con| ==> con[p].RowEq?
    ensures |RowsOf(con)| >= |con| - start
    ensures forall p {:trigger dual[p]} :: start <= p < |con| ==>
              AlphasOf(con, dual)[|RowsOf(con)| - (|con| - p)] == -dual[p]
  {
    if start == |con| {
    } else {
      var last := |con| - 1;
      AlphaAt(con[..last], dual[..last], start);
      var alpha := AlphasOf(con, dual);
      forall p | start <= p < |con| ensures alpha[|RowsOf(con)| - (|con| - p)] == -dual[p] {
        if p < last {
          assert dual[..last][p] == dual[p];
        }
      }
    }
  }

  lemma {:induction false} NoRows(con: seq<Con>)
    requires forall p :: 0 <= p < |con| ==> !con[p].RowEq?
    ensures RowsOf(con) == []
  {
    if con != [] {
      NoRows(con[..|con| - 1]);
    }
  }

  lemma RowsOfRow(con: seq<Con>, r: Row)
    ensures RowsOf(con + [RowEq(r)]) == RowsOf(con) + [r]
  {
    assert (con + [RowEq(r)])[..|con|] == con;
  }

  lemma RowsOfHalf(con: seq<Con>, c: Con)
    requires !c.RowEq?
    ensures RowsOf(con + [c]) == RowsOf(con)
  {
    assert (con + [c])[..|con|] == con;
  }

  /** Row equalities say nothing about a single point. */
  lemma PolyOfRow(con: seq<Con>, dim: nat, r: Row)
    ensures PolyOf(con + [RowEq(r)], dim) == PolyOf(con, dim)
    ensures Symmetric(con) ==> Symmetric(con + [RowEq(r)])
  {
    var con' := con + [RowEq(r)];
    forall x: Point ensures x in PolyOf(con', dim) <==> x in PolyOf(con, dim) {
      if x in PolyOf(con', dim) {
        forall p | 0 <= p < |con| && con[p].Left? ensures Sat(con[p].h, x) {
          assert con'[p] == con[p];
        }
      }
    }
  }

  lemma PolyOfCut(con: seq<Con>, dim: nat, h: Half)
    ensures PolyOf(con + [Left(h), Right(h)], dim) == iset x | x in PolyOf(con, dim) && Sat(h, x)
    ensures Symmetric(con) ==> Symmetric(con + [Left(h), Right(h)])
    ensures RowsOf(con + [Left(h), Right(h)]) == RowsOf(con)
  {
    var con' := con + [Left(h), Right(h)];
    assert con' == con + [Left(h)] + [Right(h)];
    RowsOfHalf(con, Left(h));
    RowsOfHalf(con + [Left(h)], Right(h));
    forall x: Point ensures x in PolyOf(con', dim) <==> x in PolyOf(con, dim) && Sat(h, x) {
      if x in PolyOf(con', dim) {
        forall p | 0 <= p < |con| && con[p].Left? ensures Sat(con[p].h, x) {
          assert con'[p] == con[p];
        }
        assert con'[|con|] == Left(h);
      }
    }
  }
}
