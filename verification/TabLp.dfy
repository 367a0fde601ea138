/** `struct tab_lp`: the product tableau with its stack of row equalities and its permanent cuts. */
module TabLp {
  import opened Vectors
  import opened Widths
  import opened Tableau

  /** The `is_fixed` test: the optimum is below 2 and the values of obj at the two halves of the
      optimal vertex leave room for at most one integer. */
  predicate LooksFixed(obj: Row, x: Point, y: Point, opt: real) {
    -2.0 < opt < 2.0 && Ceil(Dot(obj, x)) >= Dot(obj, y).Floor
  }

  function ProductOf(halves: seq<Half>): seq<Con> {
    seq(|halves|, k requires 0 <= k < |halves| => Left(halves[k]))
    + seq(|halves|, k requires 0 <= k < |halves| => Right(halves[k]))
  }

  class Lp {
    const dim: nat
    const solver: Solver
    const maxCon: nat          // room reserved by isl_tab_extend_cons
    var stack: seq<nat>        // how many constraints there were before each row
    var con: seq<Con>
    var neq: nat
    var conOffset: nat
    var obj: Row
    var opt: real
    var isFixed: bool
    var dual: seq<real>        // multipliers of the last solve that saved them
    var calls: nat
    ghost var answer: Solution // what the solver answered last

    /** `init_lp` */
    constructor (halves: seq<Half>, dim: nat, solver: Solver)
      ensures this.dim == dim && this.solver == solver
      ensures maxCon == 2 * |halves| + 3 * dim + 1
      ensures |stack| == dim
      ensures con == ProductOf(halves) && conOffset == |con| == 2 * |halves| && neq == 0
      ensures dual == []
    {
      this.dim := dim;
      this.solver := solver;
      this.maxCon := 2 * |halves| + 3 * dim + 1;
      this.stack := seq(dim, _ => 0);
      this.con := ProductOf(halves);
      this.neq := 0;
      this.conOffset := 2 * |halves|;
      this.obj := [];
      this.opt := 0.0;
      this.isFixed := false;
      this.dual := [];
      this.calls := 0;
      this.answer := Solution(0.0, [], [], []);
    }

    /** `set_lp_obj` */
    method SetObj(row: Row)
      modifies this`obj
      ensures obj == row
    {
      obj := row;
    }

    /** `solve_lp`. The multipliers are saved only when there are rows. There is no answer if the
        program is empty or unbounded. */
    method Solve() returns (unbounded: bool)
      requires Exact(solver, dim) && |con| < maxCon
      modifies this`opt, this`isFixed, this`dual, this`calls, this`answer
      ensures unbounded <==> !(Nonempty(con, dim) && BoundedBelow(con, dim, obj))
      ensures !unbounded ==>
                && Minimum(con, dim, obj, answer) && opt == answer.opt
                && dual == (if neq > 0 then answer.dual + [0.0] else old(dual))
                && (isFixed <==> LooksFixed(obj, answer.x, answer.y, opt))
    {
      isFixed := false;
      var s := solver.Minimize(calls, con, obj);
      unbounded := !solver.Solves(calls, con, obj);
      calls := calls + 1;
      answer := s;
      if neq > 0 {
        dual := s.dual + [0.0];
      }
      opt := s.opt;
      if -2.0 < opt < 2.0 {
        var low := Ceil(Dot(obj, s.x));
        var high := Dot(obj, s.y).Floor;
        if low >= high {
          isFixed := true;
        }
      }
    }

    /** `get_obj_val` */
    method GetObjVal() returns (F: real)
      ensures F == -opt
    {
      F := -opt;
    }

    /** `add_lp_row`: a valid equality always takes one more place in the constraint list. */
    method AddRow(row: Row) returns (index: nat)
      requires neq < |stack| && |con| < maxCon
      modifies this`con, this`neq, this`stack
      ensures con == old(con) + [RowEq(row)]
      ensures index == old(neq) && neq == old(neq) + 1
      ensures stack == old(stack)[old(neq) := |old(con)|]
    {
      stack := stack[neq := |con|];
      con := con + [RowEq(row)];
      index := neq;
      neq := neq + 1;
    }

    /** `del_lp_row` rolls back to the snapshot taken before the last row. */
    method DelRow()
      requires 0 < neq <= |stack| && stack[neq - 1] <= |con|
      modifies this`con, this`neq
      ensures neq == old(neq) - 1
      ensures con == old(con)[..stack[neq]]
    {
      neq := neq - 1;
      con := con[..stack[neq]];
    }

    /** `get_alpha` */
    method GetAlpha(row: int) returns (alpha: real)
      requires 0 <= conOffset + row < |dual|
      ensures alpha == -dual[conOffset + row]
    {
      alpha := -dual[row + conOffset];
    }

    /** `isl_tab_add_eq` drops an equality that the tableau already shows to be zero. */
    method AddEq(c: Con)
      requires !c.RowEq? && |con| < maxCon
      modifies this`con, this`calls
      ensures con == Added(solver, old(calls), old(con), c) && calls == old(calls) + 1
    {
      var zero := solver.Zero(calls, con, c);
      calls := calls + 1;
      if !zero {
        con := con + [c];
      }
    }

    /** `cut_lp_to_hyperplane`: both halves are fixed to the rounded minimum of the row on x, as far as
        the tableau does not show them to be zero already. There is no answer without a minimum. */
    method Cut(row: Row) returns (failed: bool, empty: bool, ghost h: Half)
      requires Exact(solver, dim) && |con| + 1 < maxCon
      modifies this`con, this`conOffset, this`calls
      ensures failed <==> !Lowest(old(con), dim, row)
      ensures failed ==> con == old(con) && conOffset == old(conOffset)
      ensures !failed ==>
                && conOffset == old(conOffset) + 2
                && (forall x, y :: SmallestAt(old(con), dim, row, x, y) ==> h == CutAt(row, x))
                && con == Added(solver, old(calls) + 2, Added(solver, old(calls) + 1, old(con), Left(h)), Right(h))
                && (empty <==> !Nonempty(con, dim))
    {
      var tmp := solver.MinimizeUp(calls, con, row);
      failed := !solver.HasLowest(calls, con, row);
      empty := false;
      h := Half(Equality, -tmp, row);
      calls := calls + 1;
      if failed {
        return;
      }
      AddEq(Left(Half(Equality, -tmp, row)));
      AddEq(Right(Half(Equality, -tmp, row)));
      conOffset := conOffset + 2;
      empty := solver.Empty(calls, con);
      calls := calls + 1;
    }
  }

  /** The equality that fixes row to its minimum, rounded up. */
  function CutAt(row: Row, x: Point): Half {
    Half(Equality, -Ceil(Dot(row, x)), row)
  }

  /** The constraint list after `isl_tab_add_eq`. */
  function Added(solver: Solver, n: nat, con: seq<Con>, c: Con): (con': seq<Con>)
    ensures con' == con || con' == con + [c]
  {
    if solver.Zero(n, con, c) then con else con + [c]
  }

  lemma CutAdds(solver: Solver, n: nat, con: seq<Con>, dim: nat, row: Row, h: Half)
    requires Exact(solver, dim) && Symmetric(con)
    requires h.coeffs == row && h.kind == Equality
    requires forall k :: 0 <= k < |RowsOf(con)| ==> ConstantOn(PolyOf(con, dim), RowsOf(con)[k])
    requires !ConstantOn(PolyOf(con, dim), row)
    ensures var con2 := Added(solver, n + 1, Added(solver, n, con, Left(h)), Right(h));
            && (Nonempty(con2, dim) <==> Meets(PolyOf(con, dim), h))
            && (Nonempty(con2, dim) ==> con2 == con + [Left(h), Right(h)])
  {
    var con1 := Added(solver, n, con, Left(h));
    LeftIsNew(con, dim, row, h);
    assert con1 == con + [Left(h)];
    var con2 := Added(solver, n + 1, con1, Right(h));
    RightIsNew(con, dim, row, h);
    assert con1 + [Right(h)] == con + [Left(h), Right(h)];
    EmptyAfterCut(con, dim, row, h);
    if Nonempty(con1 + [Right(h)], dim) {
      NonemptySnoc(con1, Right(h), dim);
    }
  }

  /** What a cut does to a row that is not constant, when every row on the stack is: both equalities are
      really added, so `con_offset += 2` keeps the row positions right, and the result is empty if the
      hyperplane misses the polytope. */
  lemma CutOfFreeRow(solver: Solver, n: nat, con: seq<Con>, dim: nat, row: Row, x: Point)
    requires Exact(solver, dim) && Symmetric(con) && SmallestAt(con, dim, row, x, x)
    requires forall k :: 0 <= k < |RowsOf(con)| ==> ConstantOn(PolyOf(con, dim), RowsOf(con)[k])
    requires !ConstantOn(PolyOf(con, dim), row)
    ensures Lowest(con, dim, row)
    ensures var h := CutAt(row, x);
            var con2 := Added(solver, n + 1, Added(solver, n, con, Left(h)), Right(h));
            && (Nonempty(con2, dim) <==> Meets(PolyOf(con, dim), h))
            && (Nonempty(con2, dim) ==> con2 == con + [Left(h), Right(h)])
  {
    CutAdds(solver, n, con, dim, row, CutAt(row, x));
  }

  lemma NonemptySnoc(con: seq<Con>, c: Con, dim: nat)
    requires Nonempty(con + [c], dim)
    ensures Nonempty(con, dim)
  {
    var x, y :| Feasible(con + [c], dim, x, y);
    FeasibleSnoc(con, c, dim, x, y);
  }

  /** x is a point of P where row is smallest. */
  ghost predicate AtMinimum(P: Poly, row: Row, x: Point) {
    forall z :: z in P ==> Dot(row, x) <= Dot(row, z)
  }

  /** Some point of P satisfies h. */
  ghost predicate Meets(P: Poly, h: Half) {
    exists z :: z in P && Sat(h, z)
  }

  lemma PairOfPoints(con: seq<Con>, dim: nat, x: Point, y: Point)
    requires Symmetric(con) && x in PolyOf(con, dim) && y in PolyOf(con, dim)
    requires forall k :: 0 <= k < |RowsOf(con)| ==> ConstantOn(PolyOf(con, dim), RowsOf(con)[k])
    ensures Feasible(con, dim, x, y)
  {
    FeasibleIsAgreeing(con, dim, x, y);
  }

  lemma WidthMinimizer(P: Poly, row: Row, F: real) returns (x: Point, y: Point)
    requires IsWidth(P, [], row, F)
    ensures x in P && y in P && AtMinimum(P, row, x) && Diff(row, y, x) == F
  {
    var u, v :| u in P && v in P && Agree([], u, v) && F <= Diff(row, u, v);
    x, y := v, u;
    forall z | z in P ensures Dot(row, x) <= Dot(row, z) {
      assert Agree([], u, z);
    }
  }

  lemma MinimizerOnPairs(con: seq<Con>, dim: nat, row: Row) returns (x: Point)
    requires Symmetric(con)
    requires forall k :: 0 <= k < |RowsOf(con)| ==> ConstantOn(PolyOf(con, dim), RowsOf(con)[k])
    requires exists F :: IsWidth(PolyOf(con, dim), [], row, F)
    ensures x in PolyOf(con, dim) && AtMinimum(PolyOf(con, dim), row, x)
    ensures SmallestAt(con, dim, row, x, x)
  {
    var F :| IsWidth(PolyOf(con, dim), [], row, F);
    var y: Point;
    x, y := WidthMinimizer(PolyOf(con, dim), row, F);
    PairOfPoints(con, dim, x, x);
    forall u, v | Feasible(con, dim, u, v) ensures Dot(row, x) <= Dot(row, u) {
      FeasibleIsAgreeing(con, dim, u, v);
    }
  }

  /** On feasible pairs the left equality is not identically zero. */
  lemma LeftIsNew(con: seq<Con>, dim: nat, row: Row, h: Half)
    requires Symmetric(con) && h.coeffs == row
    requires forall k :: 0 <= k < |RowsOf(con)| ==> ConstantOn(PolyOf(con, dim), RowsOf(con)[k])
    requires !ConstantOn(PolyOf(con, dim), row)
    ensures exists x, y :: Feasible(con, dim, x, y) && Value(Left(h), x, y) != 0.0
  {
    var P := PolyOf(con, dim);
    var x, y :| x in P && y in P && Diff(row, x, y) != 0.0;
    PairOfPoints(con, dim, x, x);
    PairOfPoints(con, dim, y, y);
    assert Value(Left(h), x, x) != 0.0 || Value(Left(h), y, y) != 0.0;
  }

  lemma FeasibleSnoc(con: seq<Con>, c: Con, dim: nat, x: Point, y: Point)
    ensures Feasible(con + [c], dim, x, y) <==> Feasible(con, dim, x, y) && Holds(c, x, y)
  {
    if Feasible(con + [c], dim, x, y) {
      assert (con + [c])[|con|] == c;
      forall p | 0 <= p < |con| ensures Holds(con[p], x, y) {
        assert (con + [c])[p] == con[p];
      }
    }
  }

  /** Once the left equality holds somewhere, the right one is not identically zero either. */
  lemma RightIsNew(con: seq<Con>, dim: nat, row: Row, h: Half)
    requires Symmetric(con) && h.coeffs == row && h.kind == Equality
    requires forall k :: 0 <= k < |RowsOf(con)| ==> ConstantOn(PolyOf(con, dim), RowsOf(con)[k])
    requires !ConstantOn(PolyOf(con, dim), row)
    ensures Nonempty(con + [Left(h)], dim) ==>
              exists x, y :: Feasible(con + [Left(h)], dim, x, y) && Value(Right(h), x, y) != 0.0
  {
    if Nonempty(con + [Left(h)], dim) {
      var P := PolyOf(con, dim);
      var u, v :| Feasible(con + [Left(h)], dim, u, v);
      FeasibleSnoc(con, Left(h), dim, u, v);
      FeasibleIsAgreeing(con, dim, u, v);
      var x, y :| x in P && y in P && Diff(row, x, y) != 0.0;
      PairOfPoints(con, dim, u, x);
      PairOfPoints(con, dim, u, y);
      FeasibleSnoc(con, Left(h), dim, u, x);
      FeasibleSnoc(con, Left(h), dim, u, y);
      assert Value(Right(h), u, x) != 0.0 || Value(Right(h), u, y) != 0.0;
    }
  }

  lemma EmptyAfterCut(con: seq<Con>, dim: nat, row: Row, h: Half)
    requires Symmetric(con)
    requires forall k :: 0 <= k < |RowsOf(con)| ==> ConstantOn(PolyOf(con, dim), RowsOf(con)[k])
    ensures Nonempty(con + [Left(h)], dim) <==> Meets(PolyOf(con, dim), h)
    ensures Nonempty(con + [Left(h), Right(h)], dim) <==> Meets(PolyOf(con, dim), h)
  {
    assert con + [Left(h), Right(h)] == con + [Left(h)] + [Right(h)];
    forall x, y ensures Feasible(con + [Left(h)], dim, x, y) <==> Feasible(con, dim, x, y) && Sat(h, x) {
      FeasibleSnoc(con, Left(h), dim, x, y);
    }
    forall x, y ensures Feasible(con + [Left(h), Right(h)], dim, x, y)
                   <==> Feasible(con, dim, x, y) && Sat(h, x) && Sat(h, y) {
      FeasibleSnoc(con + [Left(h)], Right(h), dim, x, y);
    }
    if Meets(PolyOf(con, dim), h) {
      var z :| z in PolyOf(con, dim) && Sat(h, z);
      PairOfPoints(con, dim, z, z);
    }
    if x, y :| Feasible(con + [Left(h)], dim, x, y) {
      FeasibleIsAgreeing(con, dim, x, y);
    }
  }

  // ----- The input -----------------------------------------------------------------------------------

  /** The points of the tableau. */
  ghost function PointsOf(halves: seq<Half>, dim: nat): Poly {
    PolyOf(ProductOf(halves), dim)
  }

  lemma PointsMeaning(halves: seq<Half>, dim: nat, x: Point)
    ensures x in PointsOf(halves, dim) <==> |x| == dim && forall k :: 0 <= k < |halves| ==> Sat(halves[k], x)
  {
    var con := ProductOf(halves);
    if x in PointsOf(halves, dim) {
      forall k | 0 <= k < |halves| ensures Sat(halves[k], x) {
        assert con[k] == Left(halves[k]);
      }
    }
  }

  lemma ProductSymmetric(halves: seq<Half>)
    ensures Symmetric(ProductOf(halves)) && RowsOf(ProductOf(halves)) == []
  {
    var con := ProductOf(halves);
    forall h ensures Left(h) in con <==> Right(h) in con {
      if Left(h) in con {
        var p :| 0 <= p < |con| && con[p] == Left(h);
        assert con[|halves| + p] == Right(h);
      }
      if Right(h) in con {
        var p :| 0 <= p < |con| && con[p] == Right(h);
        assert con[p - |halves|] == Left(h);
      }
    }
    NoRows(con);
  }
}
