/** When may a row be cut on the strength of a test that was made before multiples of other rows were
    added to it? In coordinates in which the tested row and the rows added to it are unit rows, the
    tested row is (1, 0, ..., 0) and the row that is cut is (1, m1, ..., mk). */
module SavedTest {
  import opened Vectors
  import opened Widths
  import opened Tableau
  import opened TabLp
  import opened FixedValue

  function Zeros(k: nat): Row {
    seq(k, _ => 0)
  }

  function Origin(k: nat): Point {
    seq(k, _ => 0.0)
  }

  /** The row that was tested, and what has become of it. */
  function TestedRow(m: Row): Row {
    [1] + Zeros(|m|)
  }

  function CutRow(m: Row): Row {
    [1] + m
  }

  /** x and y are what the test looked at: a pair that agrees on the other rows and realises the width F,
      which is also the width of the row that is cut; and the test passed. */
  ghost predicate Passed(P: Poly, m: Row, F: real, x: Point, y: Point) {
    && x in P && y in P && |x| == |y| == 1 + |m|
    && x[1..] == y[1..] && y[0] - x[0] == F
    && IsWidth(P, [], CutRow(m), F)
    && LooksFixed(TestedRow(m), x, y, -F)
  }

  /** Whatever the polytope and the pair, the cut keeps every integer point. */
  ghost predicate AlwaysSafe(m: Row, F: real) {
    forall P, x, y, low ::
      Passed(P, m, F, x, y) && low in P && AtMinimum(P, CutRow(m), low)
      ==> KeepsIntegerPoints(P, CutAt(CutRow(m), low))
  }

  lemma {:induction false} DotZeros(k: nat, x: Point)
    ensures Dot(Zeros(k), x) == 0.0
    decreases k
  {
    if k > 0 && x != [] {
      assert Zeros(k)[1..] == Zeros(k - 1);
      DotZeros(k - 1, x[1..]);
    }
  }

  lemma {:induction false} DotOrigin(r: Row, k: nat)
    ensures Dot(r, Origin(k)) == 0.0
    decreases k
  {
    if r != [] && k > 0 {
      assert Origin(k)[1..] == Origin(k - 1);
      DotOrigin(r[1..], k - 1);
      TimesZero(r[0]);
    }
  }

  /** A point with a single nonzero coordinate. */
  lemma {:induction false} DotSingle(r: Row, j: nat, c: real)
    requires j < |r|
    ensures Dot(r, Origin(|r|)[j := c]) == r[j] as real * c
    decreases |r|
  {
    var x := Origin(|r|)[j := c];
    if j == 0 {
      assert x[1..] == Origin(|r| - 1);
      DotOrigin(r[1..], |r| - 1);
      TimesIsProduct(r[0], c);
    } else {
      assert x[1..] == Origin(|r| - 1)[j - 1 := c];
      DotSingle(r[1..], j - 1, c);
      TimesZero(r[0]);
    }
  }

  lemma DotHead(a: int, r: Row, b: real, x: Point)
    ensures Dot([a] + r, [b] + x) == Times(a, b) + Dot(r, x)
  {
    assert ([a] + r)[1..] == r && ([b] + x)[1..] == x;
  }

  lemma DotCutRow(m: Row, p: Point)
    requires |p| == 1 + |m|
    ensures Dot(CutRow(m), p) == p[0] + Dot(m, p[1..])
    ensures Dot(TestedRow(m), p) == p[0]
  {
    assert p == [p[0]] + p[1..];
    DotHead(1, m, p[0], p[1..]);
    DotHead(1, Zeros(|m|), p[0], p[1..]);
    DotZeros(|m|, p[1..]);
    assert Times(1, p[0]) == p[0];
  }

  // ----- Safe cases -------------------------------------------------------------------------------------

  lemma SafeCases(m: Row, F: real)
    requires m == Zeros(|m|) || F < 1.0 || F >= 2.0
    ensures AlwaysSafe(m, F)
  {
    forall P, x, y, low | Passed(P, m, F, x, y) && low in P && AtMinimum(P, CutRow(m), low)
      ensures KeepsIntegerPoints(P, CutAt(CutRow(m), low))
    {
      DotCutRow(m, x);
      DotCutRow(m, y);
      if F < 1.0 {
        NarrowCutIsSafe(P, CutRow(m), F, low);
      } else {
        CutIsSafe(P, CutRow(m), F, low, x, y);
      }
    }
  }

  // ----- The other cases --------------------------------------------------------------------------------

  /** A bounded slab with 0 <= row.p <= F. */
  ghost function Slab(m: Row, F: real): Poly {
    iset p: Point | |p| == 1 + |m| && 0.0 <= Dot(CutRow(m), p) <= F && forall k :: 0 <= k < |p| ==> -2.0 <= p[k] <= 2.0
  }

  /** The ends of the pair: the row of the cut goes from 0 to F, the tested row from -F/2 to F/2. */
  function LowEnd(m: Row, j: nat, F: real): Point
    requires j < |m| && m[j] != 0
  {
    [-(F / 2.0)] + Origin(|m|)[j := F / 2.0 / m[j] as real]
  }

  function HighEnd(m: Row, j: nat, F: real): Point
    requires j < |m| && m[j] != 0
  {
    [F / 2.0] + Origin(|m|)[j := F / 2.0 / m[j] as real]
  }

  lemma Quotient(h: real, t: int)
    requires 0.0 <= h < 1.0 && t != 0
    ensures t as real * (h / t as real) == h && -1.0 < h / t as real < 1.0
  {
    var q := h / t as real;
    if t >= 1 {
      Larger(t, q);
    } else {
      Larger(-t, -q);
    }
  }

  lemma Larger(t: int, q: real)
    requires t >= 1 && t as real * q >= 0.0
    ensures 0.0 <= q <= t as real * q
  {
    var r := t as real;
    assert q < 0.0 ==> r * q < 0.0;
    assert (r - 1.0) * q == r * q - q;
    assert (r - 1.0) * q >= 0.0;
  }

  lemma Ends(m: Row, j: nat, F: real)
    requires j < |m| && m[j] != 0 && 1.0 <= F < 2.0
    ensures LowEnd(m, j, F) in Slab(m, F) && Dot(CutRow(m), LowEnd(m, j, F)) == 0.0
    ensures HighEnd(m, j, F) in Slab(m, F) && Dot(CutRow(m), HighEnd(m, j, F)) == F
    ensures Passed(Slab(m, F), m, F, LowEnd(m, j, F), HighEnd(m, j, F))
    ensures AtMinimum(Slab(m, F), CutRow(m), LowEnd(m, j, F))
  {
    var x, y, c := LowEnd(m, j, F), HighEnd(m, j, F), F / 2.0 / m[j] as real;
    Quotient(F / 2.0, m[j]);
    DotSingle(m, j, c);
    assert x[1..] == y[1..] == Origin(|m|)[j := c];
    DotCutRow(m, x);
    DotCutRow(m, y);
    assert Agree([], y, x);
    assert Ceil(-(F / 2.0)) == 0 && (F / 2.0).Floor == 0;
  }

  /** The unit point is an integer point of the slab on which the row is 1, not 0. */
  lemma UnitPoint(m: Row, F: real, low: Point)
    requires 1.0 <= F && Dot(CutRow(m), low) == 0.0
    ensures var z := [1.0] + Origin(|m|);
            z in Slab(m, F) && Integral(z) && !Sat(CutAt(CutRow(m), low), z)
  {
    var z := [1.0] + Origin(|m|);
    assert z[1..] == Origin(|m|);
    DotCutRow(m, z);
    DotOrigin(m, |m|);
    assert Ceil(0.0) == 0;
  }

  /** The exact condition: nothing was added since the test, or the width is below 1, or it is at least 2,
      where the test never passes. */
  lemma SavedTestIsSafe(m: Row, F: real)
    ensures AlwaysSafe(m, F) <==> m == Zeros(|m|) || F < 1.0 || F >= 2.0
  {
    hide Dot, KeepsIntegerPoints, Passed, AtMinimum;
    if m == Zeros(|m|) || F < 1.0 || F >= 2.0 {
      SafeCases(m, F);
    } else {
      var j :| 0 <= j < |m| && m[j] != 0;
      var P, low := Slab(m, F), LowEnd(m, j, F);
      Ends(m, j, F);
      UnitPoint(m, F, low);
      LosesPoint(P, CutAt(CutRow(m), low), [1.0] + Origin(|m|));
    }
  }

  lemma LosesPoint(P: Poly, h: Half, z: Point)
    requires z in P && Integral(z) && !Sat(h, z)
    ensures !KeepsIntegerPoints(P, h)
  {
  }
}
