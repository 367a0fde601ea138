/** When may the polytope be cut to one hyperplane without losing an integer point? */
module FixedValue {
  import opened Vectors
  import opened Widths
  import opened Tableau
  import opened TabLp

  // ----- Intervals -------------------------------------------------------------------------------

  /** The interval [low, low + F] contains at most one integer, which is then Ceil(low). */
  predicate AtMostOneInteger(low: real, F: real) {
    Ceil(low) >= (low + F).Floor
  }

  /** A range shorter than 1 always passes the test, wherever it lies. */
  lemma ShortRange(low: real, F: real)
    requires F < 1.0
    ensures AtMostOneInteger(low, F)
  {
    assert (low + F).Floor as real <= low + F < Ceil(low) as real + 1.0;
  }

  // ----- The test ---------------------------------------------------------------------------------

  /** The solved pair behind a value of `fixed`. */
  datatype Probe = Probe(row: Row, x: Point, y: Point)

  ghost predicate ProbeOf(P: Poly, probe: Probe, FNew: real, fixed: bool) {
    && probe.x in P && probe.y in P
    && Diff(probe.row, probe.y, probe.x) == FNew
    && (fixed <==> LooksFixed(probe.row, probe.x, probe.y, -FNew))
  }

  lemma NarrowIsFixed(P: Poly, probe: Probe, FNew: real, fixed: bool)
    requires ProbeOf(P, probe, FNew, fixed) && 0.0 <= FNew < 1.0
    ensures fixed
  {
    ShortRange(Dot(probe.row, probe.x), FNew);
    assert Dot(probe.row, probe.y) == Dot(probe.row, probe.x) + FNew;
  }

  lemma FixedWhenNarrow(P: Poly, probe: Probe, FNew: real, fixed: bool)
    requires ProbeOf(P, probe, FNew, fixed) && 0.0 <= FNew
    ensures FNew < 1.0 ==> fixed
  {
    if FNew < 1.0 {
      NarrowIsFixed(P, probe, FNew, fixed);
    }
  }

  // ----- Polytopes -------------------------------------------------------------------------------

  /** The cut keeps every integer point of P. */
  ghost predicate KeepsIntegerPoints(P: Poly, h: Half) {
    forall z :: z in P && Integral(z) ==> Sat(h, z)
  }

  /** A pair that realises the width of row, and whose values leave room for one integer only,
      makes the cut safe. */
  lemma CutIsSafe(P: Poly, row: Row, F: real, x: Point, fx: Point, fy: Point)
    requires IsWidth(P, [], row, F)
    requires x in P && AtMinimum(P, row, x)
    requires fx in P && fy in P && Diff(row, fy, fx) == F
    requires Ceil(Dot(row, fx)) >= Dot(row, fy).Floor
    ensures KeepsIntegerPoints(P, CutAt(row, x))
  {
    assert Agree([], fy, x);
    assert Dot(row, fx) == Dot(row, x);
    forall z | z in P && Integral(z) ensures Sat(CutAt(row, x), z) {
      IntegralDot(row, z);
      assert Agree([], z, fx);
      assert Dot(row, z) <= Dot(row, fy);
      var v := Dot(row, z).Floor;
      assert Dot(row, x) <= v as real;
      assert v <= Dot(row, fy).Floor;
      assert v >= Ceil(Dot(row, x));
    }
  }

  /** A width below 1 makes the cut safe whatever the test looked at. */
  lemma NarrowCutIsSafe(P: Poly, row: Row, F: real, x: Point)
    requires IsWidth(P, [], row, F) && F < 1.0
    requires x in P && AtMinimum(P, row, x)
    ensures KeepsIntegerPoints(P, CutAt(row, x))
  {
    var fx, fy := WidthMinimizer(P, row, F);
    ShortRange(Dot(row, fx), F);
    assert Dot(row, fy) == Dot(row, fx) + F;
    CutIsSafe(P, row, F, x, fx, fy);
  }
}
