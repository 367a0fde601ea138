/** A concrete input on which the source cuts away integer points: the rectangle
    3/4 <= x1 <= 15/4, 0 <= x1 + x2 <= 3/2 with the identity basis. In the first round the multiplier
    is the integer 1, the `is_fixed` test is made on (0, 1) but the cut on (1, 1). */
module RiskyCut {
  import opened Vectors
  import opened Widths
  import opened Tableau
  import opened TabLp
  import opened FixedValue
  import opened ReductionInvariant

  const HALVES: seq<Half> := [
    Half(AtLeastZero, -3, [4, 0]),
    Half(AtLeastZero, 15, [-4, 0]),
    Half(AtLeastZero, 0, [1, 1]),
    Half(AtLeastZero, 3, [-2, -2])]

  const FIRST: Row := [1, 0]
  const SECOND: Row := [0, 1]
  const SUM: Row := [1, 1]

  /** The tableau of the first round: the product, and the first basis row as an equality. */
  const CON: seq<Con> := [
    Left(HALVES[0]), Left(HALVES[1]), Left(HALVES[2]), Left(HALVES[3]),
    Right(HALVES[0]), Right(HALVES[1]), Right(HALVES[2]), Right(HALVES[3]),
    RowEq(FIRST)]

  /** An optimal vertex with its (unique) multipliers: that of the row is -1, so alpha is 1. */
  const ANSWER: Solution :=
    Solution(-1.5, [0.0, 0.0, 1.0, 0.0, 0.0, 0.0, 0.0, 0.5, -1.0], [0.75, -0.75], [0.75, 0.75])

  lemma Dot2(r: Row, x: Point)
    requires |r| == |x| == 2
    ensures Dot(r, x) == r[0] as real * x[0] + r[1] as real * x[1]
  {
    TimesIsProduct(r[0], x[0]);
    TimesIsProduct(r[1], x[1]);
    assert Dot(r[1..], x[1..]) == Times(r[1], x[1]);
  }

  lemma SatAt(h: Half, x: Point)
    requires |h.coeffs| == |x| == 2 && h.kind == AtLeastZero
    ensures Sat(h, x) <==> h.cst as real + (h.coeffs[0] as real * x[0] + h.coeffs[1] as real * x[1]) >= 0.0
  {
    hide Dot;
    Dot2(h.coeffs, x);
  }

  lemma ListedTwice(x: Point)
    requires |x| == 2
    ensures x in PolyOf(CON, 2) <==> forall k :: 0 <= k < 4 ==> Sat(HALVES[k], x)
  {
    hide Sat;
    assert CON[0] == Left(HALVES[0]) && CON[1] == Left(HALVES[1]);
    assert CON[2] == Left(HALVES[2]) && CON[3] == Left(HALVES[3]);
    assert forall k :: 0 <= k < 4 ==> CON[k + 4] == Right(HALVES[k]);
  }

  predicate Between(low: real, v: real, high: real) {
    low <= v <= high
  }

  lemma InRectangle(x: Point)
    requires |x| == 2
    ensures x in PolyOf(CON, 2) <==> Between(0.75, x[0], 3.75) && Between(0.0, x[0] + x[1], 1.5)
  {
    hide Sat, PolyOf;
    ListedTwice(x);
    assert Sat(HALVES[0], x) && Sat(HALVES[1], x) <==> Between(0.75, x[0], 3.75) by {
      SatAt(HALVES[0], x);
      SatAt(HALVES[1], x);
    }
    assert Sat(HALVES[2], x) && Sat(HALVES[3], x) <==> Between(0.0, x[0] + x[1], 1.5) by {
      SatAt(HALVES[2], x);
      SatAt(HALVES[3], x);
    }
  }

  lemma SumOfNine(alpha: seq<real>, ds: seq<real>)
    requires |alpha| == |ds| == 9
    requires forall k :: 0 <= k < 9 && k != 2 && k != 7 && k != 8 ==> alpha[k] == 0.0
    ensures Sum(alpha, ds) == alpha[2] * ds[2] + alpha[7] * ds[7] + alpha[8] * ds[8]
  {
    hide Sum;
    SumSkips(alpha, ds, 8, 9);
    SumSkips(alpha, ds, 7, 8);
    SumSkips(alpha, ds, 2, 7);
    SumSkips(alpha, ds, 0, 2);
    SumEnds(alpha, ds);
  }

  lemma Identity(x: Point, y: Point)
    requires |x| == |y| == 2
    ensures Diff(SECOND, x, y) == ANSWER.opt + Sum(ANSWER.dual, Values(CON, x, y))
  {
    var vs := Values(CON, x, y);
    SumOfNine(ANSWER.dual, vs);
    Dot2(SECOND, x);
    Dot2(SECOND, y);
    assert vs[2] == x[0] + x[1] by { Dot2(HALVES[2].coeffs, x); assert CON[2] == Left(HALVES[2]); }
    assert vs[7] == 3.0 - 2.0 * y[0] - 2.0 * y[1] by { Dot2(HALVES[3].coeffs, y); assert CON[7] == Right(HALVES[3]); }
    assert vs[8] == x[0] - y[0] by { Dot2(FIRST, x); Dot2(FIRST, y); assert CON[8] == RowEq(FIRST); }
  }

  lemma AnswerFeasible()
    ensures Feasible(CON, 2, ANSWER.x, ANSWER.y)
  {
    RectangleSymmetric();
    InRectangle(ANSWER.x);
    InRectangle(ANSWER.y);
    Dot2(FIRST, ANSWER.x);
    Dot2(FIRST, ANSWER.y);
    assert Agree([FIRST], ANSWER.x, ANSWER.y);
    FeasibleIsAgreeing(CON, 2, ANSWER.x, ANSWER.y);
  }

  lemma RectangleSymmetric()
    ensures Symmetric(CON) && RowsOf(CON) == [FIRST]
  {
    var front := CON[..8];
    assert CON == front + [RowEq(FIRST)];
    RowsOfRow(front, FIRST);
    assert forall p :: 0 <= p < 8 ==> !front[p].RowEq?;
    NoRows(front);
    forall h ensures Left(h) in CON <==> Right(h) in CON {
      BothSides(h);
    }
  }

  lemma BothSides(h: Half)
    ensures Left(h) in CON <==> h in HALVES
    ensures Right(h) in CON <==> h in HALVES
  {
    assert CON[0] == Left(HALVES[0]) && CON[1] == Left(HALVES[1]) && CON[2] == Left(HALVES[2]) && CON[3] == Left(HALVES[3]);
    assert CON[4] == Right(HALVES[0]) && CON[5] == Right(HALVES[1]);
    assert CON[6] == Right(HALVES[2]) && CON[7] == Right(HALVES[3]);
  }

  /** This is a correct answer for the objective (0, 1), its multiplier is the integer 1, and the
      test passes. */
  lemma SolverMayAnswer()
    ensures Minimum(CON, 2, SECOND, ANSWER)
    ensures -ANSWER.dual[8] == 1.0
    ensures LooksFixed(SECOND, ANSWER.x, ANSWER.y, ANSWER.opt)
  {
    AnswerFeasible();
    Dot2(SECOND, ANSWER.x);
    Dot2(SECOND, ANSWER.y);
    forall x: Point, y: Point | |x| == 2 && |y| == 2
      ensures Diff(SECOND, x, y) == ANSWER.opt + Sum(ANSWER.dual, Values(CON, x, y))
    {
      Identity(x, y);
    }
  }

  lemma RectangleWidth(row: Row, x: Point, y: Point, F: real)
    requires row == FIRST || row == SUM
    requires |x| == |y| == 2 && x in PolyOf(CON, 2) && y in PolyOf(CON, 2) && Diff(row, y, x) == F
    requires F == if row == FIRST then 3.0 else 1.5
    ensures IsWidth(PolyOf(CON, 2), [], row, F)
  {
    forall u, v | u in PolyOf(CON, 2) && v in PolyOf(CON, 2) && Agree([], u, v) ensures Diff(row, u, v) <= F {
      InRectangle(u);
      InRectangle(v);
      Dot2(row, u);
      Dot2(row, v);
    }
    assert Agree([], y, x);
  }

  /** The rows are swapped, since 4 * 3/2 < 3 * 3; the row cut is (1, 1), to the value 0. The integer
      point (1, 0) of the rectangle is lost. */
  lemma CutLosesAPoint()
    ensures Combine(SECOND, 1, FIRST) == SUM
    ensures IsWidth(PolyOf(CON, 2), [], FIRST, 3.0) && IsWidth(PolyOf(CON, 2), [], SUM, 1.5)
    ensures LOW in PolyOf(CON, 2) && AtMinimum(PolyOf(CON, 2), SUM, LOW)
    ensures LOST in PolyOf(CON, 2) && Integral(LOST) && !Sat(CutAt(SUM, LOW), LOST)
    ensures !KeepsIntegerPoints(PolyOf(CON, 2), CutAt(SUM, LOW))
  {
    hide Dot, PolyOf, IsWidth, AtMinimum;
    RectangleWidths();
    LowestSum();
    LostPoint();
  }

  const LOW: Point := [0.75, -0.75]
  const HIGH: Point := [0.75, 0.75]
  const SIDE: Point := [3.75, -3.75]
  const LOST: Point := [1.0, 0.0]

  lemma RectangleWidths()
    ensures IsWidth(PolyOf(CON, 2), [], FIRST, 3.0) && IsWidth(PolyOf(CON, 2), [], SUM, 1.5)
  {
    hide PolyOf, IsWidth;
    InRectangle(LOW);
    InRectangle(HIGH);
    InRectangle(SIDE);
    Dot2(SUM, LOW);
    Dot2(SUM, HIGH);
    Dot2(FIRST, LOW);
    Dot2(FIRST, SIDE);
    RectangleWidth(FIRST, LOW, SIDE, 3.0);
    RectangleWidth(SUM, LOW, HIGH, 1.5);
  }

  lemma LowestSum()
    ensures LOW in PolyOf(CON, 2) && AtMinimum(PolyOf(CON, 2), SUM, LOW) && Dot(SUM, LOW) == 0.0
  {
    hide PolyOf;
    InRectangle(LOW);
    Dot2(SUM, LOW);
    forall z | z in PolyOf(CON, 2) ensures Dot(SUM, LOW) <= Dot(SUM, z) {
      PlanePoint(z);
      InRectangle(z);
      Dot2(SUM, z);
    }
  }

  lemma PlanePoint(z: Point)
    requires z in PolyOf(CON, 2)
    ensures |z| == 2
  {
  }

  lemma LostPoint()
    ensures LOST in PolyOf(CON, 2) && Integral(LOST)
    ensures !Sat(CutAt(SUM, LOW), LOST)
  {
    hide PolyOf;
    InRectangle(LOST);
    Dot2(SUM, LOST);
    LowestSum();
  }
}
