/** A whole run that loses an integer point although the round that cuts uses the multiplier 0: the
    polytope 0 <= x0 <= 3, 3/4 <= x1 <= 15/4, 0 <= x1 + x2 <= 3/2 with the identity basis. In the second
    round the test is made on the last row, then the row before it is added to it; the test is carried
    over a back-up, and the third round relies on it. */
module RiskyRun {
  import opened Vectors
  import opened Widths
  import opened Tableau
  import opened TabLp
  import opened FixedValue
  import opened ReductionInvariant
  import opened ReductionRun

  const HALVES: seq<Half> := [
    Half(AtLeastZero, 0, [1, 0, 0]),
    Half(AtLeastZero, 3, [-1, 0, 0]),
    Half(AtLeastZero, -3, [0, 4, 0]),
    Half(AtLeastZero, 15, [0, -4, 0]),
    Half(AtLeastZero, 0, [0, 1, 1]),
    Half(AtLeastZero, 3, [0, -2, -2])]

  const E0: Row := [1, 0, 0]
  const E1: Row := [0, 1, 0]
  const E2: Row := [0, 0, 1]
  const SUM: Row := [0, 1, 1]

  /** The tableau of the second round: the product and the first two basis rows. */
  const CON: seq<Con> := ProductOf(HALVES) + [RowEq(E0), RowEq(E1)]

  const LOW: Point := [0.0, 0.75, -0.75]
  const HIGH: Point := [0.0, 0.75, 0.75]

  /** An optimal vertex for the objective E2 with its multipliers: 0 for E0 and -(-1) for E1. */
  const ANSWER: Solution :=
    Solution(-1.5, [0.0, 0.0, 0.0, 0.0, 1.0, 0.0, 0.0, 0.0, 0.0, 0.0, 0.0, 0.5, 0.0, -1.0], LOW, HIGH)

  lemma {:induction false} DotLast(r: Row, x: Point)
    requires |r| == |x| == 1
    ensures Dot(r, x) == Times(r[0], x[0])
  {
  }

  lemma {:induction false} Dot3(r: Row, x: Point)
    requires |r| == |x| == 3
    ensures Dot(r, x) == r[0] as real * x[0] + r[1] as real * x[1] + r[2] as real * x[2]
  {
    hide Times;
    TimesIsProduct(r[0], x[0]);
    TimesIsProduct(r[1], x[1]);
    TimesIsProduct(r[2], x[2]);
    DotLast(r[2..], x[2..]);
    assert r[1..][1..] == r[2..] && x[1..][1..] == x[2..];
    assert Dot(r[1..], x[1..]) == Times(r[1], x[1]) + Dot(r[2..], x[2..]);
  }

  ghost const PRISM: Poly := PointsOf(HALVES, 3)

  lemma SatAt(h: Half, x: Point)
    requires |h.coeffs| == |x| == 3 && h.kind == AtLeastZero
    ensures Sat(h, x) <==>
      h.cst as real + (h.coeffs[0] as real * x[0] + h.coeffs[1] as real * x[1] + h.coeffs[2] as real * x[2]) >= 0.0
  {
    hide Dot;
    Dot3(h.coeffs, x);
  }

  predicate Between(low: real, v: real, high: real) {
    low <= v <= high
  }

  predicate PrismAt(x: Point)
    requires |x| == 3
  {
    Between(0.0, x[0], 3.0) && Between(0.75, x[1], 3.75) && Between(0.0, x[1] + x[2], 1.5)
  }

  lemma InPrism(x: Point)
    requires |x| == 3
    ensures x in PRISM <==> PrismAt(x)
  {
    hide Dot, Sat;
    PointsMeaning(HALVES, 3, x);
    assert Sat(HALVES[0], x) && Sat(HALVES[1], x) <==> Between(0.0, x[0], 3.0) by {
      SatAt(HALVES[0], x);
      SatAt(HALVES[1], x);
    }
    assert Sat(HALVES[2], x) && Sat(HALVES[3], x) <==> Between(0.75, x[1], 3.75) by {
      SatAt(HALVES[2], x);
      SatAt(HALVES[3], x);
    }
    assert Sat(HALVES[4], x) && Sat(HALVES[5], x) <==> Between(0.0, x[1] + x[2], 1.5) by {
      SatAt(HALVES[4], x);
      SatAt(HALVES[5], x);
    }
  }

  lemma PrismPoint(x: Point)
    requires x in PRISM
    ensures |x| == 3
  {
    PointsMeaning(HALVES, 3, x);
  }

  // ----- The solver's answer -----------------------------------------------------------------------------

  lemma SumOfFourteen(alpha: seq<real>, ds: seq<real>)
    requires |alpha| == |ds| == 14
    requires forall k :: 0 <= k < 14 && k != 4 && k != 11 && k != 13 ==> alpha[k] == 0.0
    ensures Sum(alpha, ds) == alpha[4] * ds[4] + alpha[11] * ds[11] + alpha[13] * ds[13]
  {
    hide Sum;
    SumSkips(alpha, ds, 13, 14);
    SumSkips(alpha, ds, 11, 13);
    SumSkips(alpha, ds, 4, 11);
    SumSkips(alpha, ds, 0, 4);
    SumEnds(alpha, ds);
  }

  lemma Identity(x: Point, y: Point)
    requires |x| == |y| == 3
    ensures Diff(E2, x, y) == ANSWER.opt + Sum(ANSWER.dual, Values(CON, x, y))
  {
    var vs := Values(CON, x, y);
    SumOfFourteen(ANSWER.dual, vs);
    Dot3(E2, x);
    Dot3(E2, y);
    assert vs[4] == x[1] + x[2] by { Dot3(HALVES[4].coeffs, x); assert CON[4] == Left(HALVES[4]); }
    assert vs[11] == 3.0 - 2.0 * y[1] - 2.0 * y[2] by { Dot3(HALVES[5].coeffs, y); assert CON[11] == Right(HALVES[5]); }
    assert vs[13] == x[1] - y[1] by { Dot3(E1, x); Dot3(E1, y); assert CON[13] == RowEq(E1); }
  }

  lemma Stacked()
    ensures Symmetric(CON) && RowsOf(CON) == [E0, E1] && PolyOf(CON, 3) == PRISM
  {
    var front := ProductOf(HALVES);
    assert front + [RowEq(E0)] + [RowEq(E1)] == CON;
    ProductSymmetric(HALVES);
    RowsOfRow(front, E0);
    RowsOfRow(front + [RowEq(E0)], E1);
    PolyOfRow(front, 3, E0);
    PolyOfRow(front + [RowEq(E0)], 3, E1);
  }

  lemma Values3(x: Point)
    requires |x| == 3
    ensures Dot(E0, x) == x[0] && Dot(E1, x) == x[1] && Dot(E2, x) == x[2] && Dot(SUM, x) == x[1] + x[2]
  {
    Dot3(E0, x);
    Dot3(E1, x);
    Dot3(E2, x);
    Dot3(SUM, x);
  }

  lemma Feasibly()
    ensures Feasible(CON, 3, LOW, HIGH) && Diff(E2, LOW, HIGH) == -1.5
    ensures Dot(E2, LOW) == -0.75 && Dot(E2, HIGH) == 0.75
  {
    hide Dot, PolyOf;
    Stacked();
    InPrism(LOW);
    InPrism(HIGH);
    Values3(LOW);
    Values3(HIGH);
    assert Agree([E0, E1], LOW, HIGH);
    FeasibleIsAgreeing(CON, 3, LOW, HIGH);
  }

  /** A correct answer in the second round: the multiplier of E1 is the integer 1, that of E0 is 0, and
      the test on E2 passes. */
  lemma SolverMayAnswer()
    ensures Minimum(CON, 3, E2, ANSWER)
    ensures -ANSWER.dual[12] == 0.0 && -ANSWER.dual[13] == 1.0
    ensures LooksFixed(E2, ANSWER.x, ANSWER.y, ANSWER.opt)
  {
    hide Dot, PolyOf;
    Feasibly();
    forall x: Point, y: Point | |x| == 3 && |y| == 3
      ensures Diff(E2, x, y) == ANSWER.opt + Sum(ANSWER.dual, Values(CON, x, y))
    {
      Identity(x, y);
    }
  }

  // ----- The widths --------------------------------------------------------------------------------------

  function WidthIn(row: Row): real {
    if row == SUM then 1.5 else 3.0
  }

  lemma Widest(row: Row, R: seq<Row>, x: Point, y: Point)
    requires row == E0 || row == E1 || row == SUM
    requires x in PRISM && y in PRISM && Agree(R, x, y) && Diff(row, x, y) == WidthIn(row)
    ensures IsWidth(PRISM, R, row, WidthIn(row))
  {
    forall u, v | u in PRISM && v in PRISM ensures Diff(row, u, v) <= WidthIn(row) {
      PrismPoint(u);
      PrismPoint(v);
      InPrism(u);
      InPrism(v);
      Values3(u);
      Values3(v);
    }
  }

  /** A pair that agrees on b too shows that no multiple of b helps. */
  lemma NoMultipleHelps(R: seq<Row>, b: Row, c: Row, G: real, x: Point, y: Point)
    requires |b| == |c| && x in PRISM && y in PRISM && Agree(R, x, y)
    requires Diff(b, x, y) == 0.0 && Diff(c, x, y) == G
    ensures NoBetterMultiple(PRISM, R, b, c, G)
  {
    forall t: int ensures AtLeast(PRISM, R, Combine(c, t, b), G) {
      DiffCombine(c, t, b, x, y);
      TimesZero(t);
    }
  }

  // ----- The run -----------------------------------------------------------------------------------------

  const LEFT: Point := [3.0, 0.75, -0.75]
  const FAR: Point := [0.0, 3.75, -3.75]
  const LOST: Point := [0.0, 1.0, 0.0]

  ghost const PROBLEM: Problem := Problem(PRISM, 3, 0, 3, false)

  const TEST: Probe := Probe(E2, LOW, HIGH)
  const FIRST: Move := Move(0, 3.0, 3.0, false, Probe(E0, LOW, LEFT))
  const MOVE0: Move := Move(0, 3.0, 3.0, false, Probe(E1, LOW, FAR))
  const MOVE1: Move := Move(1, 1.5, 3.0, true, TEST)
  const MOVE2: Move := Move(0, 1.5, 3.0, true, TEST)

  const CUT: Cut := Cut(0, SUM, 0, 1.5, TEST)

  const STAGE0: Stage := Stage([E0, E1, E2], 0, 0, [], Nothing, Going)
  const STAGE1: Stage := Stage([E0, E1, E2], 0, 1, [], Nothing, Going)
  const STAGE2: Stage := Stage([E0, SUM, E1], 0, 0, [], Test(TEST), Going)
  const STAGE3: Stage := Stage([SUM, E0, E1], 1, 0, [CUT], Nothing, Going)

  ghost const RUN: History :=
    History(PROBLEM, [E0, E1, E2], FIRST, [STAGE0, STAGE1, STAGE2, STAGE3], [MOVE0, MOVE1, MOVE2])

  lemma Points()
    ensures LOW in PRISM && HIGH in PRISM && LEFT in PRISM && FAR in PRISM && LOST in PRISM
    ensures Diff(E0, LEFT, LOW) == 3.0 && Diff(E1, FAR, LOW) == 3.0 && Diff(SUM, HIGH, LOW) == 1.5
    ensures Diff(E0, FAR, LOW) == 0.0 && Diff(E0, HIGH, LOW) == 0.0 && Diff(E1, HIGH, LOW) == 0.0
    ensures Diff(E2, HIGH, LOW) == 1.5 && Dot(SUM, LOW) == 0.0 && Dot(SUM, LOST) == 1.0
    ensures Dot(E2, LOW) == -0.75 && Dot(E2, HIGH) == 0.75
  {
    hide Dot;
    InPrism(LOW);
    InPrism(HIGH);
    InPrism(LEFT);
    InPrism(FAR);
    InPrism(LOST);
    Values3(LOW);
    Values3(HIGH);
    Values3(LEFT);
    Values3(FAR);
    Values3(LOST);
  }

  lemma NothingCut()
    ensures Inside(PRISM, []) == PRISM
  {
  }

  lemma Begins()
    ensures Started(PROBLEM, [E0, E1, E2], FIRST, STAGE0)
  {
    hide Dot, PolyOf;
    Points();
    Widest(E0, [], LEFT, LOW);
  }

  lemma Round0()
    ensures IsRound(PROBLEM, STAGE0, MOVE0, STAGE1)
  {
    hide Dot, PolyOf, IsWidth, NoBetterMultiple;
    Points();
    NothingCut();
    Widest(E0, [], LEFT, LOW);
    Widest(E1, [], FAR, LOW);
    CombineZero(E1, E0);
    NoMultipleHelps([], E0, E1, 3.0, FAR, LOW);
    assert STAGE0.B[0..0] == [];
    assert WithMultiple(PROBLEM, STAGE0, MOVE0).B == STAGE1.B;
  }

  lemma TestPasses()
    ensures ProbeOf(PRISM, TEST, 1.5, true)
  {
    hide Dot, PolyOf;
    Points();
    assert Ceil(-0.75) == 0 && (0.75).Floor == 0;
  }

  /** E1 is added to E2 after the test, and the rows are exchanged. */
  lemma Round1()
    ensures IsRound(PROBLEM, STAGE1, MOVE1, STAGE2)
  {
    hide Dot, PolyOf, IsWidth, NoBetterMultiple, ProbeOf, Agree;
    Points();
    NothingCut();
    TestPasses();
    AgreeOnFirst();
    Widest(E1, [E0], FAR, LOW);
    Widest(SUM, [E0], HIGH, LOW);
    assert Combine(E2, 1, E1) == SUM;
    NoMultipleHelps([E0], E1, SUM, 1.5, HIGH, LOW);
    assert STAGE1.B[0..1] == [E0];
    assert WithMultiple(PROBLEM, STAGE1, MOVE1).B == [E0, E1, SUM];
  }

  lemma AgreeOnFirst()
    ensures Agree([E0], FAR, LOW) && Agree([E0], HIGH, LOW)
  {
    Points();
  }

  lemma LowIsLowest()
    ensures LOW in PRISM && AtMinimum(PRISM, SUM, LOW)
  {
    hide PolyOf, Dot;
    Points();
    forall z | z in PRISM ensures Dot(SUM, LOW) <= Dot(SUM, z) {
      PrismPoint(z);
      InPrism(z);
      Values3(z);
    }
  }

  lemma CutHere()
    ensures RoundedMinimum(PRISM, SUM) == 0 && LOW in Inside(PRISM, [CUT])
  {
    hide PolyOf, Dot, RoundedMinimum, AtMinimum;
    Points();
    LowIsLowest();
    RoundedMinimumAt(PRISM, SUM, LOW);
    assert Ceil(0.0) == 0;
  }

  /** The multiplier is 0; the rows are exchanged, and the saved test makes the source cut. */
  lemma Round2()
    ensures IsRound(PROBLEM, STAGE2, MOVE2, STAGE3)
  {
    hide Dot, PolyOf, IsWidth, NoBetterMultiple, ProbeOf, Agree, Inside, RoundedMinimum;
    Points();
    NothingCut();
    TestPasses();
    CutHere();
    AgreeOnNothing();
    Widest(E0, [], LEFT, LOW);
    Widest(SUM, [], HIGH, LOW);
    CombineZero(SUM, E0);
    NoMultipleHelps([], E0, SUM, 1.5, HIGH, LOW);
    assert STAGE2.B[0..0] == [];
    assert WithMultiple(PROBLEM, STAGE2, MOVE2).B == [E0, SUM, E1];
    assert [] + [CUT] == [CUT];
  }

  lemma AgreeOnNothing()
    ensures Agree([], LEFT, LOW) && Agree([], HIGH, LOW)
  {
  }

  /** The run happens, its only cut is risky although the multiplier of the cutting round is 0, and an
      integer point of the polytope is lost. */
  lemma RunLosesAPoint()
    ensures IsRun(RUN) && Last(RUN).cuts == [CUT] && CUT.Risky() && MOVE2.m == 0
    ensures LOST in PRISM && Integral(LOST) && LOST !in Inside(PRISM, Last(RUN).cuts)
  {
    hide IsRound, Started, PolyOf, Dot;
    Begins();
    Round0();
    Round1();
    Round2();
    Points();
    LosesIt();
  }

  lemma LosesIt()
    ensures LOST !in Inside(PRISM, [CUT])
  {
    Points();
    assert [CUT][0] == CUT;
  }
}
