/** The reduction ends: from no input can the loop go round for ever, whatever an exact solver chooses. */
module Termination {
  import opened Vectors
  import opened Widths
  import opened Tableau
  import opened TabLp
  import opened FixedValue
  import opened RationalPolytopes
  import opened ReductionInvariant
  import opened ReductionRun

  /** An endless course of rounds. */
  datatype Course = Course(p: Problem, B0: seq<Row>, first: Move, stages: nat -> Stage, moves: nat -> Move)

  ghost predicate RoundAt(c: Course, k: nat) {
    IsRound(c.p, c.stages(k), c.moves(k), c.stages(k + 1))
  }

  ghost predicate Endless(c: Course) {
    Started(c.p, c.B0, c.first, c.stages(0)) && forall k: nat :: RoundAt(c, k)
  }

  lemma {:induction false} CourseIsSound(c: Course, k: nat)
    requires Endless(c)
    ensures Sound(c.p, c.stages(k)) && MayGoOn(c.p, c.stages(k)) && Chosen(c.p, c.stages(k), c.moves(k))
  {
    hide Started, Sound, NextStage;
    assert RoundAt(c, k);
    if k == 0 {
      SoundStart(c.p, c.B0, c.first, c.stages(0));
    } else {
      CourseIsSound(c, k - 1);
      assert RoundAt(c, k - 1);
      SoundRound(c.p, c.stages(k - 1), c.moves(k - 1), c.stages(k));
    }
  }

  // ----- Numbers that settle ---------------------------------------------------------------------------------

  ghost predicate RisesAt(f: nat -> nat, k: nat, bound: nat) {
    f(k) <= f(k + 1) <= bound
  }

  ghost predicate Rising(f: nat -> nat, from: nat, bound: nat) {
    forall k: nat :: k >= from ==> RisesAt(f, k, bound)
  }

  ghost predicate Still(f: nat -> nat, from: nat) {
    forall k: nat :: k >= from ==> f(k) == f(from)
  }

  /** A rising number with a bound stays the same from some point on. */
  lemma {:induction false} Settles(f: nat -> nat, from: nat, bound: nat) returns (k: nat)
    requires Rising(f, from, bound) && f(from) <= bound
    ensures k >= from && Still(f, k)
    decreases bound - f(from)
  {
    if Still(f, from) {
      k := from;
    } else {
      var j: nat :| j >= from && f(j) != f(from);
      RisesTo(f, from, j, bound);
      k := Settles(f, j, bound);
    }
  }

  lemma {:induction false} RisesTo(f: nat -> nat, from: nat, j: nat, bound: nat)
    requires Rising(f, from, bound) && j >= from && f(from) <= bound
    ensures f(from) <= f(j) <= bound
    decreases j - from
  {
    if j > from {
      RisesTo(f, from, j - 1, bound);
      assert RisesAt(f, j - 1, bound);
    }
  }

  // ----- n_zero settles ------------------------------------------------------------------------------------------

  lemma ZeroRises(p: Problem, g: Stage, mv: Move, t: Stage)
    requires Sound(p, g) && IsRound(p, g, mv, t) && t.end == Going
    ensures g.z <= t.z && (t.z == g.z ==> t.cuts == g.cuts)
  {
    hide ConstantOn, PairReduced, NoBetterMultiple, IsWidth, Inside, Chosen, Sound;
  }

  /** From round `from` on, n_zero and the cuts stay as they are. */
  ghost predicate Settled(c: Course, from: nat) {
    forall k: nat :: k >= from ==> c.stages(k).z == c.stages(from).z && c.stages(k).cuts == c.stages(from).cuts
  }

  lemma ZeroRisesAt(c: Course, k: nat)
    requires Endless(c)
    ensures c.stages(k).z <= c.stages(k + 1).z <= c.p.n
    ensures c.stages(k).z == c.stages(k + 1).z ==> c.stages(k).cuts == c.stages(k + 1).cuts
  {
    hide Sound, NextStage, Chosen, Started;
    CourseIsSound(c, k);
    CourseIsSound(c, k + 1);
    assert RoundAt(c, k);
    ZeroRises(c.p, c.stages(k), c.moves(k), c.stages(k + 1));
  }

  lemma {:induction false} SameCuts(c: Course, from: nat, k: nat)
    requires Endless(c) && k >= from
    requires forall j: nat :: j >= from ==> c.stages(j).z == c.stages(from).z
    ensures c.stages(k).cuts == c.stages(from).cuts
    decreases k
  {
    hide Endless;
    if k > from {
      SameCuts(c, from, k - 1);
      ZeroRisesAt(c, k - 1);
    }
  }

  ghost function ZeroAt(c: Course, k: nat): nat {
    c.stages(k).z
  }

  lemma ZeroSettles(c: Course) returns (from: nat)
    requires Endless(c)
    ensures Settled(c, from)
  {
    hide Endless;
    var f, n := (j: nat) => ZeroAt(c, j), c.p.n;
    forall k: nat ensures RisesAt(f, k, n) {
      ZeroRisesAt(c, k);
    }
    assert f(0) <= n by { ZeroRisesAt(c, 0); }
    from := Settles(f, 0, n);
    forall k: nat | k >= from ensures c.stages(k).z == c.stages(from).z {
      assert f(k) == f(from);
    }
    forall k: nat | k >= from ensures c.stages(k).cuts == c.stages(from).cuts {
      SameCuts(c, from, k);
    }
  }

  // ----- Rounds that leave n_zero alone ----------------------------------------------------------------------------

  /** An exchange moves i back, but not below n_zero; otherwise i goes on. */
  lemma PlainRound(p: Problem, g: Stage, mv: Move, t: Stage)
    requires Sound(p, g) && IsRound(p, g, mv, t) && MayGoOn(p, t) && t.z == g.z
    ensures Swaps(mv) ==>
              && g.z <= g.i
              && t.i == (if g.i > g.z then g.i - 1 else g.i)
              && t.B == Exchanged(g.B[g.i + 1 := NewRow(p, g, mv.m)], g.i)
    ensures !Swaps(mv) ==> t.i == g.i + 1 && t.B == g.B[g.i + 1 := NewRow(p, g, mv.m)]
  {
    hide ConstantOn, PairReduced, NoBetterMultiple, IsWidth, Inside, Chosen;
    if g.i + 1 == g.z {
      AfterZeroRow(p, g, mv);
    }
  }

  /** From round `from` on, rows are exchanged only at places from l on. */
  ghost predicate QuietBelow(c: Course, from: nat, l: nat) {
    && Settled(c, from)
    && c.stages(from).z <= l
    && forall k: nat :: k >= from && Swaps(c.moves(k)) ==> c.stages(k).i >= l
  }

  lemma QuietAtZero(c: Course, from: nat)
    requires Endless(c) && Settled(c, from)
    ensures QuietBelow(c, from, c.stages(from).z)
  {
    hide Sound, NextStage, Chosen, Started;
    forall k: nat | k >= from && Swaps(c.moves(k)) ensures c.stages(k).i >= c.stages(from).z {
      CourseIsSound(c, k);
      CourseIsSound(c, k + 1);
      assert RoundAt(c, k);
      PlainRound(c.p, c.stages(k), c.moves(k), c.stages(k + 1));
    }
  }

  lemma QuietLater(c: Course, from: nat, from': nat, l: nat)
    requires QuietBelow(c, from, l) && from <= from'
    ensures QuietBelow(c, from', l)
  {
  }

  /** What one round does when all is quiet below l. */
  lemma QuietRound(c: Course, from: nat, l: nat, k: nat)
    requires Endless(c) && QuietBelow(c, from, l) && k >= from
    ensures var g, mv, t := c.stages(k), c.moves(k), c.stages(k + 1);
            && Sound(c.p, g) && MayGoOn(c.p, g) && Chosen(c.p, g, mv)
            && |t.B| == |g.B|
            && (Swaps(mv) ==> g.i >= l && t.i + 1 >= g.i && t.B == Exchanged(g.B[g.i + 1 := NewRow(c.p, g, mv.m)], g.i))
            && (!Swaps(mv) ==> t.i == g.i + 1 && t.B == g.B[g.i + 1 := NewRow(c.p, g, mv.m)])
  {
    hide Sound, NextStage, Chosen, Started;
    CourseIsSound(c, k);
    CourseIsSound(c, k + 1);
    assert RoundAt(c, k);
    PlainRound(c.p, c.stages(k), c.moves(k), c.stages(k + 1));
  }

  /** i soon is at least l - 1, and then stays so. */
  lemma {:induction false} ReachesLevel(c: Course, from: nat, l: nat, k: nat)
    requires Endless(c) && QuietBelow(c, from, l) && k >= from
    ensures c.stages(k).i + 1 >= l || c.stages(k).i >= k - from
    decreases k
  {
    hide Sound, Chosen, Endless, QuietBelow;
    if k > from {
      ReachesLevel(c, from, l, k - 1);
      QuietRound(c, from, l, k - 1);
    }
  }

  // ----- One level ---------------------------------------------------------------------------------------------------

  /** From round `from` on, moreover, i is at least l - 1. */
  ghost predicate AtLevel(c: Course, from: nat, l: nat) {
    && QuietBelow(c, from, l)
    && forall k: nat :: k >= from ==> c.stages(k).i + 1 >= l
  }

  lemma LevelReached(c: Course, from: nat, l: nat) returns (from': nat)
    requires Endless(c) && QuietBelow(c, from, l)
    ensures from' >= from && AtLevel(c, from', l)
  {
    from' := from + l;
    forall k: nat | k >= from' ensures c.stages(k).i + 1 >= l {
      ReachesLevel(c, from, l, k);
    }
    QuietLater(c, from, from', l);
  }

  /** Rows below l stay as they are. */
  lemma {:induction false} RowsBelowStay(c: Course, from: nat, l: nat, k: nat)
    requires Endless(c) && AtLevel(c, from, l) && k >= from
    requires l <= |c.stages(from).B|
    ensures |c.stages(k).B| == |c.stages(from).B| && c.stages(k).B[..l] == c.stages(from).B[..l]
    decreases k
  {
    hide Sound, Chosen, Endless, QuietBelow;
    if k > from {
      RowsBelowStay(c, from, l, k - 1);
      QuietRound(c, from, l, k - 1);
      assert c.stages(k - 1).i + 1 >= l;
    }
  }

  ghost function PolyAt(c: Course, from: nat): Poly {
    Inside(c.p.P0, c.stages(from).cuts)
  }

  /** The rows between n_zero at entry and l. */
  ghost function RowsAt(c: Course, from: nat, l: nat): seq<Row> {
    if c.p.z0 <= l <= |c.stages(from).B| then c.stages(from).B[c.p.z0..l] else []
  }

  /** An exchange of rows l and l + 1 in round k. */
  predicate SwapsAt(c: Course, l: nat, k: nat) {
    Swaps(c.moves(k)) && c.stages(k).i == l
  }

  /** How many there are in the rounds from `from` to k. */
  function SwapCount(c: Course, from: nat, l: nat, k: nat): nat
    decreases k
  {
    if k <= from then 0 else SwapCount(c, from, l, k - 1) + if SwapsAt(c, l, k - 1) then 1 else 0
  }

  /** The width of row l given the rows before it, in round k. */
  ghost predicate LevelWidth(c: Course, from: nat, l: nat, k: nat, W: real) {
    l < |c.stages(k).B| && IsWidth(PolyAt(c, from), RowsAt(c, from, l), c.stages(k).B[l], W)
  }

  /** A round keeps the width at level l, or exchanges rows there and leaves less than 3/4 of it. */
  lemma LevelRound(c: Course, from: nat, l: nat, k: nat, W: real)
    requires Endless(c) && AtLevel(c, from, l) && k >= from && LevelWidth(c, from, l, k, W)
    ensures !SwapsAt(c, l, k) ==> LevelWidth(c, from, l, k + 1, W)
    ensures SwapsAt(c, l, k) ==>
              var G := c.moves(k).G; LevelWidth(c, from, l, k + 1, G) && 0.0 <= G && 4.0 * G < 3.0 * W
  {
    hide Sound, Chosen, Endless, QuietBelow, IsWidth, Inside, NoBetterMultiple, ProbeOf;
    var g, mv, t := c.stages(k), c.moves(k), c.stages(k + 1);
    QuietRound(c, from, l, k);
    SameStretch(c, from, l, k);
    assert g.i + 1 >= l;
    if g.i + 1 == l {
      LevelSheared(c, from, l, k, W);
    } else if g.i == l && Swaps(mv) {
      LevelSwapped(c, from, l, k, W);
    }
  }

  /** The polytope and the rows before row l are still the same in round k. */
  lemma SameStretch(c: Course, from: nat, l: nat, k: nat)
    requires Endless(c) && AtLevel(c, from, l) && k >= from && l < |c.stages(k).B|
    ensures PolyAt(c, from) == Inside(c.p.P0, c.stages(k).cuts)
    ensures c.p.z0 <= l && RowsAt(c, from, l) == c.stages(k).B[c.p.z0..l]
  {
    hide Sound, Chosen, Endless, Inside, NextStage;
    CourseIsSound(c, from);
    CourseIsSound(c, k);
    assert |c.stages(from).B| == c.p.dim == |c.stages(k).B|;
    RowsBelowStay(c, from, l, k);
    var B, B' := c.stages(from).B, c.stages(k).B;
    assert B'[c.p.z0..l] == B'[..l][c.p.z0..] == B[..l][c.p.z0..] == B[c.p.z0..l];
  }

  lemma LevelSheared(c: Course, from: nat, l: nat, k: nat, W: real)
    requires Endless(c) && AtLevel(c, from, l) && k >= from && LevelWidth(c, from, l, k, W)
    requires c.stages(k).i + 1 == l
    ensures LevelWidth(c, from, l, k + 1, W)
  {
    hide Sound, Chosen, Endless, IsWidth, Inside, NextStage;
    var g, mv := c.stages(k), c.moves(k);
    QuietRound(c, from, l, k);
    SameStretch(c, from, l, k);
    var R, r := g.B[c.p.z0..l - 1], g.B[l - 1];
    assert g.B[c.p.z0..l] == R + [r];
    ShearAlongRow(PolyAt(c, from), R, r, g.B[l], mv.m, W);
    assert !Swaps(mv);
  }

  lemma LevelSwapped(c: Course, from: nat, l: nat, k: nat, W: real)
    requires Endless(c) && AtLevel(c, from, l) && k >= from && LevelWidth(c, from, l, k, W) && SwapsAt(c, l, k)
    ensures var G := c.moves(k).G; LevelWidth(c, from, l, k + 1, G) && 0.0 <= G && 4.0 * G < 3.0 * W
  {
    hide Sound, Endless, IsWidth, Inside, NextStage, NoBetterMultiple, ProbeOf;
    var g, mv := c.stages(k), c.moves(k);
    QuietRound(c, from, l, k);
    SameStretch(c, from, l, k);
    WidthUnique(PolyAt(c, from), RowsAt(c, from, l), g.B[l], mv.F, W);
    WidthNonNegative(PolyAt(c, from), RowsAt(c, from, l), NewRow(c.p, g, mv.m), mv.G);
  }

  // ----- Few exchanges at a level ---------------------------------------------------------------------------------

  /** What is left of the width at level l after the exchanges so far. */
  ghost predicate Shrunk(c: Course, from: nat, l: nat, k: nat, first: real) {
    exists W :: LevelWidth(c, from, l, k, W) && FourThirds(SwapCount(c, from, l, k)) * W <= first
  }

  lemma {:induction false} WidthShrinks(c: Course, from: nat, l: nat, k: nat, first: real)
    requires Endless(c) && AtLevel(c, from, l) && k >= from && LevelWidth(c, from, l, from, first)
    ensures Shrunk(c, from, l, k, first)
    decreases k
  {
    hide Endless, AtLevel, LevelWidth;
    if k == from {
      assert FourThirds(SwapCount(c, from, l, k)) * first == first;
    } else {
      WidthShrinks(c, from, l, k - 1, first);
      var W :| LevelWidth(c, from, l, k - 1, W) && FourThirds(SwapCount(c, from, l, k - 1)) * W <= first;
      LevelRound(c, from, l, k - 1, W);
      if SwapsAt(c, l, k - 1) {
        ThreeQuarters(SwapCount(c, from, l, k - 1), W, c.moves(k - 1).G, first);
      }
    }
  }

  lemma ThreeQuarters(s: nat, W: real, G: real, first: real)
    requires FourThirds(s) * W <= first && 0.0 <= G && 4.0 * G < 3.0 * W
    ensures FourThirds(s + 1) * G <= first
  {
    var q := FourThirds(s);
    FourThirdsPositive(s);
    ReductionInvariant.Scaled(q, G, 0.75 * W);
    assert FourThirds(s + 1) * G == q * G * 4.0 / 3.0;
  }

  /** (4/3)^n is at least 1 + n / 3. */
  lemma {:induction false} FourThirdsGrows(n: nat)
    ensures FourThirds(n) >= 1.0 + n as real / 3.0
  {
    if n > 0 {
      FourThirdsGrows(n - 1);
      FourThirdsPositive(n - 1);
      var q := FourThirds(n - 1);
      assert q * 4.0 / 3.0 == q + q / 3.0 >= q + 1.0 / 3.0;
      assert n as real / 3.0 == (n - 1) as real / 3.0 + 1.0 / 3.0;
    }
  }

  /** As long as there is an exchange at level l to come, the width there is at least the gap, so there
      have not been many. */
  lemma SwapsAreFew(c: Course, from: nat, l: nat, k: nat, first: real, gap: real, bound: nat)
    requires Endless(c) && AtLevel(c, from, l) && k >= from && LevelWidth(c, from, l, from, first)
    requires gap > 0.0 && FourThirds(bound) * gap > first
    requires forall j: nat, W :: j >= from && LevelWidth(c, from, l, j, W) ==> W == 0.0 || W >= gap
    requires SwapsAt(c, l, k)
    ensures SwapCount(c, from, l, k) < bound
  {
    hide Endless, AtLevel, LevelWidth, SwapCount, FourThirds;
    WidthShrinks(c, from, l, k, first);
    var W :| LevelWidth(c, from, l, k, W) && FourThirds(SwapCount(c, from, l, k)) * W <= first;
    LevelRound(c, from, l, k, W);
    FewEnough(SwapCount(c, from, l, k), bound, W, gap, first);
  }

  lemma FewEnough(s: nat, bound: nat, W: real, gap: real, first: real)
    requires FourThirds(s) * W <= first && W >= gap > 0.0 && FourThirds(bound) * gap > first
    ensures s < bound
  {
    hide FourThirds;
    if s >= bound {
      FourThirdsRises(bound, s);
      Larger(FourThirds(bound), FourThirds(s), gap, W);
    }
  }

  lemma Larger(p: real, q: real, v: real, w: real)
    requires 0.0 <= p <= q && 0.0 <= v <= w
    ensures p * v <= q * w
  {
    ReductionInvariant.Scaled(q, v, w);
    ReductionInvariant.Scaled(v, p, q);
  }

  lemma {:induction false} FourThirdsRises(a: nat, b: nat)
    requires a <= b
    ensures 1.0 <= FourThirds(a) <= FourThirds(b)
    decreases b
  {
    FourThirdsPositive(a);
    if a < b {
      FourThirdsRises(a, b - 1);
    }
  }

  lemma EnoughSwaps(first: real, gap: real) returns (bound: nat)
    requires gap > 0.0
    ensures FourThirds(bound) * gap > first
  {
    var x := first / gap;
    assert x * gap == first;
    bound := if x < 0.0 then 0 else 3 * (x.Floor + 1);
    FourThirdsGrows(bound);
    assert bound as real / 3.0 >= (if x < 0.0 then 0.0 else x.Floor as real + 1.0);
    Enough(FourThirds(bound), x, gap, first);
  }

  lemma Enough(p: real, x: real, gap: real, first: real)
    requires x * gap == first && p > x && gap > 0.0
    ensures p * gap > first
  {
    assert (p - x) * gap > 0.0;
  }

  // ----- Widths that are not zero stay away from zero --------------------------------------------------------------

  function CutHalves(cuts: seq<Cut>): seq<Half> {
    seq(|cuts|, k requires 0 <= k < |cuts| => Half(Equality, -cuts[k].value, cuts[k].row))
  }

  lemma InsideIsPoly(halves: seq<Half>, n: nat, cuts: seq<Cut>)
    ensures Inside(PointsOf(halves, n), cuts) == PolyOfHalves(halves + CutHalves(cuts), n)
  {
    hide PointsOf, Dot;
    forall x: Point ensures x in Inside(PointsOf(halves, n), cuts) <==> x in PolyOfHalves(halves + CutHalves(cuts), n) {
      PointsMeaning(halves, n, x);
      AllSatBoth(halves, CutHalves(cuts), x);
      forall k | 0 <= k < |cuts|
        ensures Sat(CutHalves(cuts)[k], x) <==> Dot(cuts[k].row, x) == cuts[k].value as real
      {
      }
    }
  }

  /** The widths at level l are zero or at least some gap. */
  lemma LevelGap(c: Course, halves: seq<Half>, from: nat, l: nat) returns (gap: real)
    requires Endless(c) && c.p.P0 == PointsOf(halves, c.p.dim) && HalvesSized(halves, c.p.dim)
    ensures gap > 0.0
    ensures forall j: nat, W :: LevelWidth(c, from, l, j, W) ==> W == 0.0 || W >= gap
  {
    hide IsWidth, PolyOfHalves, PointsOf, Inside, Chosen;
    CourseIsSound(c, from);
    var g, n := c.stages(from), c.p.dim;
    var hs := halves + CutHalves(g.cuts);
    InsideIsPoly(halves, n, g.cuts);
    gap := WidthGap(hs, RowsAt(c, from, l), n);
    forall j: nat, W | LevelWidth(c, from, l, j, W) ensures W == 0.0 || W >= gap {
      CourseIsSound(c, j);
    }
  }

  // ----- All levels -------------------------------------------------------------------------------------------------

  lemma LevelLater(c: Course, from: nat, from': nat, l: nat)
    requires AtLevel(c, from, l) && from <= from'
    ensures AtLevel(c, from', l)
  {
    QuietLater(c, from, from', l);
  }

  lemma {:induction false} CountBounded(c: Course, from: nat, l: nat, k: nat, bound: nat)
    requires forall j: nat :: j >= from && SwapsAt(c, l, j) ==> SwapCount(c, from, l, j) < bound
    requires k >= from
    ensures SwapCount(c, from, l, k) <= bound
    decreases k
  {
    if k > from {
      CountBounded(c, from, l, k - 1, bound);
    }
  }

  /** With few exchanges at level l, there is a last one. */
  lemma LastSwap(c: Course, from: nat, l: nat, bound: nat) returns (from': nat)
    requires forall j: nat :: j >= from && SwapsAt(c, l, j) ==> SwapCount(c, from, l, j) < bound
    ensures from' >= from && forall k: nat :: k >= from' ==> !SwapsAt(c, l, k)
  {
    var f := (j: nat) => SwapCount(c, from, l, j);
    forall k: nat | k >= from ensures RisesAt(f, k, bound) {
      CountBounded(c, from, l, k, bound);
      CountBounded(c, from, l, k + 1, bound);
      assert f(k) == SwapCount(c, from, l, k) && f(k + 1) == SwapCount(c, from, l, k + 1);
    }
    assert f(from) == 0;
    from' := Settles(f, from, bound);
    forall k: nat | k >= from' ensures !SwapsAt(c, l, k) {
      assert f(k) == f(from') == f(k + 1);
      assert f(k) == SwapCount(c, from, l, k) && f(k + 1) == SwapCount(c, from, l, k + 1);
    }
  }

  /** Once all is quiet below l, all will be quiet below l + 1. */
  lemma LevelQuiets(c: Course, halves: seq<Half>, from: nat, l: nat) returns (from': nat)
    requires Endless(c) && c.p.P0 == PointsOf(halves, c.p.dim) && HalvesSized(halves, c.p.dim)
    requires QuietBelow(c, from, l)
    ensures QuietBelow(c, from', l + 1)
  {
    hide Endless, QuietBelow, LevelWidth, FourThirds, PointsOf, HalvesSized;
    var level := LevelReached(c, from, l);
    from' := level;
    if k0: nat :| k0 >= level && SwapsAt(c, l, k0) {
      LevelLater(c, level, k0, l);
      var first := c.moves(k0).F;
      FirstLevelWidth(c, k0, l);
      var gap := LevelGap(c, halves, k0, l);
      var bound := EnoughSwaps(first, gap);
      forall j: nat | j >= k0 && SwapsAt(c, l, j) ensures SwapCount(c, k0, l, j) < bound {
        SwapsAreFew(c, k0, l, j, first, gap, bound);
      }
      from' := LastSwap(c, k0, l, bound);
    }
    QuietMore(c, from, from', l);
  }

  lemma FirstLevelWidth(c: Course, k: nat, l: nat)
    requires Endless(c) && AtLevel(c, k, l) && SwapsAt(c, l, k)
    ensures LevelWidth(c, k, l, k, c.moves(k).F)
  {
    hide Sound, Endless, QuietBelow, IsWidth, Inside, NoBetterMultiple, ProbeOf;
    CourseIsSound(c, k);
    SameStretch(c, k, l, k);
  }

  lemma QuietMore(c: Course, from: nat, from': nat, l: nat)
    requires QuietBelow(c, from, l) && from' >= from && forall k: nat :: k >= from' ==> !SwapsAt(c, l, k)
    ensures QuietBelow(c, from', l + 1)
  {
    QuietLater(c, from, from', l);
    forall k: nat | k >= from' && Swaps(c.moves(k)) ensures c.stages(k).i >= l + 1 {
      assert !SwapsAt(c, l, k);
    }
  }

  lemma {:induction false} AllQuiet(c: Course, halves: seq<Half>, from: nat, l: nat) returns (from': nat)
    requires Endless(c) && c.p.P0 == PointsOf(halves, c.p.dim) && HalvesSized(halves, c.p.dim)
    requires QuietBelow(c, from, l) && l <= c.p.n
    ensures QuietBelow(c, from', c.p.n)
    decreases c.p.n - l
  {
    hide Endless, QuietBelow, PointsOf, HalvesSized;
    if l == c.p.n {
      from' := from;
    } else {
      from' := LevelQuiets(c, halves, from, l);
      from' := AllQuiet(c, halves, from', l + 1);
    }
  }

  /** The reduction of a polytope that is given by integer constraints ends: no course of rounds is
      endless. */
  lemma NoEndlessCourse(c: Course, halves: seq<Half>)
    requires c.p.P0 == PointsOf(halves, c.p.dim) && HalvesSized(halves, c.p.dim)
    ensures !Endless(c)
  {
    hide QuietBelow, PointsOf, HalvesSized, Sound, Chosen, Started;
    if Endless(c) {
      var from := ZeroSettles(c);
      QuietAtZero(c, from);
      ZeroRisesAt(c, from);
      from := AllQuiet(c, halves, from, c.stages(from).z);
      var k := from + c.p.n;
      ReachesLevel(c, from, c.p.n, k);
      CourseIsSound(c, k);
    }
  }

  // ----- A measure for the loop --------------------------------------------------------------------------------------

  /** Whatever rounds follow g, they come to an end. */
  least predicate Ends(p: Problem, g: Stage) {
    forall mv, t :: IsRound(p, g, mv, t) ==> Ends(p, t)
  }

  /** Every round makes the rank smaller. */
  lemma {:induction false} RankFalls(rank: ORDINAL, p: Problem, g: Stage, mv: Move, t: Stage) returns (less: ORDINAL)
    requires Ends#[rank](p, g) && IsRound(p, g, mv, t)
    ensures less < rank && Ends#[less](p, t)
  {
    hide IsRound;
    if rank.IsLimit {
      var earlier: ORDINAL :| earlier < rank && Ends#[earlier](p, g);
      less := RankFalls(earlier, p, g, mv, t);
    } else {
      less := rank - 1;
    }
  }

  ghost predicate Strays(p: Problem, g: Stage, mv: Move, t: Stage) {
    IsRound(p, g, mv, t) && !Ends(p, t)
  }

  lemma StraysOn(p: Problem, g: Stage)
    requires !Ends(p, g)
    ensures exists mv, t :: Strays(p, g, mv, t)
  {
    hide IsRound;
    var mv, t :| IsRound(p, g, mv, t) && !Ends(p, t);
    assert Strays(p, g, mv, t);
  }

  datatype Onward = Onward(mv: Move, t: Stage)

  /** A round after which the end is no nearer. */
  ghost function Pick(p: Problem, g: Stage): (o: Onward)
    requires !Ends(p, g)
    ensures Strays(p, g, o.mv, o.t)
  {
    StraysOn(p, g);
    var mv, t :| Strays(p, g, mv, t);
    Onward(mv, t)
  }

  ghost function StrayAt(p: Problem, g: Stage, k: nat): (t: Stage)
    requires !Ends(p, g)
    ensures !Ends(p, t)
  {
    if k == 0 then g else Pick(p, StrayAt(p, g, k - 1)).t
  }

  /** Every run comes to an end. */
  lemma RunsEnd(p: Problem, halves: seq<Half>, B0: seq<Row>, first: Move, g: Stage) returns (rank: ORDINAL)
    requires p.P0 == PointsOf(halves, p.dim) && HalvesSized(halves, p.dim) && Started(p, B0, first, g)
    ensures Ends#[rank](p, g)
  {
    hide IsRound, Started, PointsOf, HalvesSized;
    if !Ends(p, g) {
      var c := Course(p, B0, first, (k: nat) => StrayAt(p, g, k), (k: nat) => Pick(p, StrayAt(p, g, k)).mv);
      forall k: nat ensures RoundAt(c, k) {
        var t := StrayAt(p, g, k);
        assert Strays(p, t, Pick(p, t).mv, Pick(p, t).t);
        assert StrayAt(p, g, k + 1) == Pick(p, t).t;
      }
      NoEndlessCourse(c, halves);
    }
    rank :| Ends#[rank](p, g);
  }
}
