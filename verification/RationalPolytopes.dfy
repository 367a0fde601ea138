/** Constraints with integer coefficients have maxima with bounded denominators: over a polytope given by
    such constraints, the maximum of any integer objective, where there is one, is a multiple of 1/D for
    one D. So the widths of integer rows that are not zero stay away from zero. */
module RationalPolytopes {
  import opened Vectors
  import opened Widths
  import opened Tableau

  // ----- Integer vectors ----------------------------------------------------------------------------------

  function IDot(a: Row, w: Row): int {
    if a == [] || w == [] then 0 else a[0] * w[0] + IDot(a[1..], w[1..])
  }

  function Lin(s: int, a: Row, t: int, b: Row): (r: Row)
    requires |a| == |b|
    ensures |r| == |a|
  {
    seq(|a|, k requires 0 <= k < |a| => s * a[k] + t * b[k])
  }

  function Scaled(t: int, w: Row): (r: Row)
    ensures |r| == |w|
  {
    seq(|w|, k requires 0 <= k < |w| => t * w[k])
  }

  lemma Distribute(s: int, a: int, t: int, b: int, w: int)
    ensures (s * a + t * b) * w == s * (a * w) + t * (b * w)
  {
    assert s * a * w == s * (a * w) && t * b * w == t * (b * w);
  }

  lemma {:induction false} IDotLin(s: int, a: Row, t: int, b: Row, w: Row)
    requires |a| == |b|
    ensures IDot(Lin(s, a, t, b), w) == s * IDot(a, w) + t * IDot(b, w)
  {
    if a != [] && w != [] {
      assert Lin(s, a, t, b)[1..] == Lin(s, a[1..], t, b[1..]);
      IDotLin(s, a[1..], t, b[1..], w[1..]);
      Distribute(s, a[0], t, b[0], w[0]);
      Spread(s, a[0] * w[0], IDot(a[1..], w[1..]));
      Spread(t, b[0] * w[0], IDot(b[1..], w[1..]));
    }
  }

  lemma Spread(s: int, x: int, y: int)
    ensures s * (x + y) == s * x + s * y
  {
  }

  lemma {:induction false} IDotScaled(a: Row, t: int, w: Row)
    ensures IDot(a, Scaled(t, w)) == t * IDot(a, w)
  {
    if a != [] && w != [] {
      assert Scaled(t, w)[1..] == Scaled(t, w[1..]);
      IDotScaled(a[1..], t, w[1..]);
      assert a[0] * (t * w[0]) == t * (a[0] * w[0]);
      Spread(t, a[0] * w[0], IDot(a[1..], w[1..]));
    }
  }

  lemma {:induction false} IDotUpdate(a: Row, w: Row, j: nat, d: int)
    requires j < |w| && |a| == |w|
    ensures IDot(a, w[j := w[j] + d]) == IDot(a, w) + a[j] * d
    decreases j
  {
    var w' := w[j := w[j] + d];
    if j == 0 {
      assert w'[1..] == w[1..];
      Spread(a[0], w[0], d);
    } else {
      assert w'[1..] == w[1..][j - 1 := w[1..][j - 1] + d];
      IDotUpdate(a[1..], w[1..], j - 1, d);
    }
  }

  lemma {:induction false} IDotZero(a: Row, w: Row)
    requires forall k :: 0 <= k < |a| ==> a[k] == 0
    ensures IDot(a, w) == 0
  {
    if a != [] && w != [] {
      IDotZero(a[1..], w[1..]);
    }
  }

  lemma {:induction false} DotZero(a: Row, x: Point)
    requires forall k :: 0 <= k < |a| ==> a[k] == 0
    ensures Dot(a, x) == 0.0
  {
    if a != [] && x != [] {
      DotZero(a[1..], x[1..]);
    }
  }

  lemma {:induction false} DotLin(s: int, a: Row, t: int, b: Row, x: Point)
    requires |a| == |b|
    ensures Dot(Lin(s, a, t, b), x) == Times(s, Dot(a, x)) + Times(t, Dot(b, x))
  {
    hide Times;
    if a == [] || x == [] {
      TimesZero(s);
      TimesZero(t);
    } else {
      assert Lin(s, a, t, b)[1..] == Lin(s, a[1..], t, b[1..]);
      DotLin(s, a[1..], t, b[1..], x[1..]);
      TimesAdd(s * a[0], t * b[0], x[0]);
      TimesTimes(s, a[0], x[0]);
      TimesTimes(t, b[0], x[0]);
      TimesDistributes(s, Times(a[0], x[0]), Dot(a[1..], x[1..]));
      TimesDistributes(t, Times(b[0], x[0]), Dot(b[1..], x[1..]));
    }
  }

  // ----- Solutions of integer equations ---------------------------------------------------------------------

  predicate Equations(eqs: seq<Half>, n: nat) {
    forall k :: 0 <= k < |eqs| ==> eqs[k].kind == Equality && |eqs[k].coeffs| == n
  }

  ghost predicate Solves(eqs: seq<Half>, n: nat, z: Point) {
    |z| == n && forall k :: 0 <= k < |eqs| ==> HalfValue(eqs[k], z) == 0.0
  }

  /** w / d is a solution of the equation. */
  predicate Holds(e: Half, w: Row, d: int) {
    e.cst * d + IDot(e.coeffs, w) == 0
  }

  /** e without variable j, with the help of equation a. */
  function Eliminate(e: Half, a: Half, j: nat): Half
    requires j < |e.coeffs| == |a.coeffs|
  {
    var p, q := a.coeffs[j], -e.coeffs[j];
    Half(Equality, p * e.cst + q * a.cst, Lin(p, e.coeffs, q, a.coeffs))
  }

  lemma EliminateSolves(e: Half, a: Half, j: nat, z: Point)
    requires j < |e.coeffs| == |a.coeffs| && HalfValue(e, z) == 0.0 && HalfValue(a, z) == 0.0
    ensures HalfValue(Eliminate(e, a, j), z) == 0.0
  {
    var p, q := a.coeffs[j], -e.coeffs[j];
    DotLin(p, e.coeffs, q, a.coeffs, z);
    TimesNegated(p, e.cst, Dot(e.coeffs, z));
    TimesNegated(q, a.cst, Dot(a.coeffs, z));
  }

  lemma TimesNegated(p: int, c: int, v: real)
    requires c as real + v == 0.0
    ensures Times(p, v) == -((p * c) as real)
  {
    TimesIsProduct(p, v);
    assert v == -(c as real);
    assert p as real * c as real == (p * c) as real;
  }

  /** The solution of the rest, scaled and moved along variable j so that a holds too. */
  function Extended(a: Half, j: nat, w: Row, d: int): Row
    requires j < |a.coeffs| == |w|
  {
    var p := a.coeffs[j];
    var v := Scaled(p * p, w);
    v[j := v[j] + -(p * (a.cst * d + IDot(a.coeffs, w)))]
  }

  lemma ExtendedHolds(e: Half, a: Half, j: nat, w: Row, d: int)
    requires j < |e.coeffs| == |a.coeffs| == |w|
    requires e == a || Holds(Eliminate(e, a, j), w, d)
    ensures Holds(e, Extended(a, j, w, d), a.coeffs[j] * a.coeffs[j] * d)
  {
    hide IDot;
    var p, q, i, l := a.coeffs[j], e.coeffs[j], IDot(a.coeffs, w), IDot(e.coeffs, w);
    IDotScaled(e.coeffs, p * p, w);
    IDotUpdate(e.coeffs, Scaled(p * p, w), j, -(p * (a.cst * d + i)));
    if e == a {
      SameEquation(p, a.cst, d, i);
    } else {
      IDotLin(p, e.coeffs, -q, a.coeffs, w);
      OtherEquation(p, q, a.cst, e.cst, d, i, l);
    }
  }

  lemma SameEquation(p: int, c: int, d: int, i: int)
    ensures c * (p * p * d) + (p * p * i + p * -(p * (c * d + i))) == 0
  {
    assert p * -(p * (c * d + i)) == -(p * p * (c * d + i));
    assert p * p * (c * d + i) == p * p * (c * d) + p * p * i;
    assert c * (p * p * d) == p * p * (c * d);
  }

  lemma OtherEquation(p: int, q: int, ca: int, ce: int, d: int, i: int, l: int)
    requires (p * ce + -q * ca) * d + (p * l + -q * i) == 0
    ensures ce * (p * p * d) + (p * p * l + q * -(p * (ca * d + i))) == 0
  {
    var cd, ad, pcd, qad := ce * d, ca * d, p * (ce * d), q * (ca * d);
    assert (p * ce + -q * ca) * d == pcd - qad;
    assert pcd - qad + p * l - q * i == 0;
    assert p * (pcd - qad + p * l - q * i) == 0;
    assert p * (pcd - qad + p * l - q * i) == p * pcd - p * qad + p * (p * l) - p * (q * i);
    assert ce * (p * p * d) == p * pcd;
    assert p * p * l == p * (p * l);
    assert q * -(p * (ad + i)) == -(p * qad) - p * (q * i);
  }

  /** If integer equations have a real solution, they have a rational one. */
  lemma {:induction false} RationalSolution(eqs: seq<Half>, n: nat, z: Point) returns (w: Row, d: int)
    requires Equations(eqs, n) && Solves(eqs, n, z)
    ensures d > 0 && |w| == n && forall k :: 0 <= k < |eqs| ==> Holds(eqs[k], w, d)
    decreases |eqs|
  {
    hide HalfValue, Holds, Eliminate, Extended;
    if eqs == [] {
      w, d := seq(n, _ => 0), 1;
      return;
    }
    var a, rest := eqs[0], eqs[1..];
    if j :| 0 <= j < n && a.coeffs[j] != 0 {
      var rest' := seq(|rest|, k requires 0 <= k < |rest| => Eliminate(rest[k], a, j));
      EliminatedSolves(rest, rest', a, j, n, z);
      var w', d' := RationalSolution(rest', n, z);
      w, d := Extended(a, j, w', d'), a.coeffs[j] * a.coeffs[j] * d';
      ExtendedSize(a, j, w', d');
      SquarePositive(a.coeffs[j], d');
      forall k | 0 <= k < |eqs| ensures Holds(eqs[k], w, d) {
        if k > 0 {
          assert eqs[k] == rest[k - 1] && rest'[k - 1] == Eliminate(rest[k - 1], a, j);
        }
        ExtendedHolds(eqs[k], a, j, w', d');
      }
    } else {
      w, d := RationalSolution(rest, n, z);
      EmptyEquation(a, w, d, z);
      forall k | 0 <= k < |eqs| ensures Holds(eqs[k], w, d) {
        assert k > 0 ==> eqs[k] == rest[k - 1];
      }
    }
  }

  lemma EliminatedSolves(rest: seq<Half>, rest': seq<Half>, a: Half, j: nat, n: nat, z: Point)
    requires Equations(rest, n) && Solves(rest, n, z) && |a.coeffs| == n && j < n && HalfValue(a, z) == 0.0
    requires |rest'| == |rest| && forall k :: 0 <= k < |rest| ==> rest'[k] == Eliminate(rest[k], a, j)
    ensures Equations(rest', n) && Solves(rest', n, z)
  {
    hide HalfValue;
    forall k | 0 <= k < |rest'| ensures HalfValue(rest'[k], z) == 0.0 {
      EliminateSolves(rest[k], a, j, z);
    }
  }

  lemma ExtendedSize(a: Half, j: nat, w: Row, d: int)
    requires j < |a.coeffs| == |w|
    ensures |Extended(a, j, w, d)| == |w|
  {
  }

  lemma SquarePositive(p: int, d: int)
    requires p != 0 && d > 0
    ensures p * p * d > 0
  {
    assert p * p > 0;
  }

  lemma EmptyEquation(a: Half, w: Row, d: int, z: Point)
    requires (forall k :: 0 <= k < |a.coeffs| ==> a.coeffs[k] == 0) && HalfValue(a, z) == 0.0
    ensures Holds(a, w, d)
  {
    DotZero(a.coeffs, z);
    IDotZero(a.coeffs, w);
  }

  function Divided(w: Row, d: int): (y: Point)
    requires d > 0
    ensures |y| == |w|
  {
    seq(|w|, k requires 0 <= k < |w| => w[k] as real / d as real)
  }

  lemma {:induction false} DotDivided(a: Row, w: Row, d: int)
    requires d > 0
    ensures Dot(a, Divided(w, d)) * d as real == IDot(a, w) as real
  {
    hide Times;
    if a != [] && w != [] {
      assert Divided(w, d)[1..] == Divided(w[1..], d);
      DotDivided(a[1..], w[1..], d);
      TimesIsProduct(a[0], w[0] as real / d as real);
      Fraction(a[0], w[0], d);
      AddedTerms(Times(a[0], w[0] as real / d as real), Dot(a[1..], Divided(w[1..], d)), d as real,
                 a[0] * w[0], IDot(a[1..], w[1..]));
    }
  }

  lemma AddedTerms(p: real, q: real, r: real, a: int, b: int)
    requires p * r == a as real && q * r == b as real
    ensures (p + q) * r == (a + b) as real
  {
  }

  lemma Fraction(a: int, w: int, d: int)
    requires d > 0
    ensures a as real * (w as real / d as real) * d as real == (a * w) as real
  {
    var q := w as real / d as real;
    assert q * d as real == w as real;
    assert a as real * q * d as real == a as real * (q * d as real);
    assert a as real * w as real == (a * w) as real;
  }

  // ----- Objectives ---------------------------------------------------------------------------------------------

  ghost predicate Whole(r: real) {
    r == r.Floor as real
  }

  /** The whole number d clears the denominators of v. */
  ghost predicate Clears(d: real, v: real) {
    d > 0.0 && Whole(d) && Whole(d * v)
  }

  lemma WholeProduct(m: real, v: real, y: real)
    requires Whole(m) && Whole(v) && y == m * v
    ensures Whole(y)
  {
    assert m * v == (m.Floor * v.Floor) as real;
  }

  lemma ClearsMore(m: real, d: real, e: real, v: real)
    requires m > 0.0 && Whole(m) && Clears(d, v) && e == m * d
    ensures Clears(e, v)
  {
    var x, y := d * v, e * v;
    assert y == m * x;
    WholeProduct(m, x, y);
    WholeProduct(m, d, e);
  }

  ghost predicate Constant(eqs: seq<Half>, n: nat, c: Row, v: real) {
    forall y :: Solves(eqs, n, y) ==> Dot(c, y) == v
  }

  /** One denominator for every objective that is constant on the solutions. */
  lemma FlatDenominator(eqs: seq<Half>, n: nat) returns (d: real)
    requires Equations(eqs, n)
    ensures d > 0.0 && Whole(d)
    ensures forall c, v, z :: Constant(eqs, n, c, v) && Solves(eqs, n, z) ==> Clears(d, v)
  {
    if z0 :| Solves(eqs, n, z0) {
      var w, t := RationalSolution(eqs, n, z0);
      RationalSolves(eqs, n, w, t);
      d := t as real;
      forall c, v, z | Constant(eqs, n, c, v) && Solves(eqs, n, z) ensures Clears(d, v) {
        DotDivided(c, w, t);
        assert v == Dot(c, Divided(w, t));
        assert d * v == IDot(c, w) as real;
      }
    } else {
      d := 1.0;
    }
  }

  lemma RationalSolves(eqs: seq<Half>, n: nat, w: Row, d: int)
    requires Equations(eqs, n) && d > 0 && |w| == n && forall k :: 0 <= k < |eqs| ==> Holds(eqs[k], w, d)
    ensures Solves(eqs, n, Divided(w, d))
  {
    forall k | 0 <= k < |eqs| ensures HalfValue(eqs[k], Divided(w, d)) == 0.0 {
      DotDivided(eqs[k].coeffs, w, d);
      assert Holds(eqs[k], w, d);
      ZeroQuotient(eqs[k].cst, Dot(eqs[k].coeffs, Divided(w, d)), d, IDot(eqs[k].coeffs, w));
    }
  }

  lemma ZeroQuotient(c: int, v: real, d: int, i: int)
    requires d > 0 && v * d as real == i as real && c * d + i == 0
    ensures c as real + v == 0.0
  {
    var r := d as real;
    assert (c as real + v) * r == c as real * r + v * r;
    assert c as real * r == (c * d) as real;
  }

  // ----- Moving inside a polytope -------------------------------------------------------------------------------

  function Blend(a: real, b: real, e: real): real {
    a + e * (b - a)
  }

  /** The point at the fraction e of the way from z to y. */
  function Toward(z: Point, y: Point, e: real): (p: Point)
    requires |z| == |y|
    ensures |p| == |z| && forall k :: 0 <= k < |z| ==> p[k] == Blend(z[k], y[k], e)
  {
    seq(|z|, k requires 0 <= k < |z| => Blend(z[k], y[k], e))
  }

  lemma {:induction false} DotToward(c: Row, z: Point, y: Point, e: real)
    requires |z| == |y|
    ensures Dot(c, Toward(z, y, e)) == Blend(Dot(c, z), Dot(c, y), e)
  {
    hide Blend, Times;
    var p := Toward(z, y, e);
    if c == [] || z == [] {
      assert z == [] ==> y == [] && p == [];
      NoMove(e);
    } else {
      assert p[1..] == Toward(z[1..], y[1..], e);
      DotToward(c[1..], z[1..], y[1..], e);
      assert Dot(c, p) == Times(c[0], p[0]) + Dot(c[1..], p[1..]);
      TimesIsProduct(c[0], p[0]);
      TimesIsProduct(c[0], z[0]);
      TimesIsProduct(c[0], y[0]);
      OneTerm(c[0] as real, z[0], y[0], e, Times(c[0], z[0]), Times(c[0], y[0]), Dot(c[1..], z[1..]), Dot(c[1..], y[1..]));
    }
  }

  lemma NoMove(e: real)
    ensures Blend(0.0, 0.0, e) == 0.0
  {
  }

  lemma OneTerm(c: real, z: real, y: real, e: real, cz: real, cy: real, dz: real, dy: real)
    requires cz == c * z && cy == c * y
    ensures c * Blend(z, y, e) + Blend(dz, dy, e) == Blend(cz + dz, cy + dy, e)
  {
    var d, f, cd := y - z, dy - dz, cy - cz;
    assert c * d == cd;
    assert c * (z + e * d) == cz + e * cd;
    assert e * (cd + f) == e * cd + e * f;
  }

  ghost predicate Inner(hs: seq<Half>, z: Point) {
    forall k :: 0 <= k < |hs| ==> HalfValue(hs[k], z) > 0.0
  }

  /** From a point where no constraint is tight one can go a little in every direction. */
  lemma {:induction false} SmallStep(hs: seq<Half>, z: Point, y: Point) returns (e: real)
    requires |z| == |y| && Inner(hs, z)
    ensures e > 0.0
    ensures forall k, f :: 0 <= k < |hs| && -e <= f <= e ==> HalfValue(hs[k], Toward(z, y, f)) >= 0.0
    decreases |hs|
  {
    hide HalfValue, Toward;
    if hs == [] {
      e := 1.0;
    } else {
      var last := |hs| - 1;
      var rest := hs[..last];
      assert Inner(rest, z) by {
        forall k | 0 <= k < |rest| ensures HalfValue(rest[k], z) > 0.0 {
          assert rest[k] == hs[k];
        }
      }
      var e0 := SmallStep(rest, z, y);
      var e1 := StepOf(hs[last], z, y);
      e := if e0 < e1 then e0 else e1;
      forall k, f | 0 <= k < |hs| && -e <= f <= e ensures HalfValue(hs[k], Toward(z, y, f)) >= 0.0 {
        assert k < last ==> rest[k] == hs[k];
      }
    }
  }

  lemma StepOf(h: Half, z: Point, y: Point) returns (e: real)
    requires |z| == |y| && HalfValue(h, z) > 0.0
    ensures e > 0.0
    ensures forall f :: -e <= f <= e ==> HalfValue(h, Toward(z, y, f)) >= 0.0
  {
    var a, d := HalfValue(h, z), HalfValue(h, y) - HalfValue(h, z);
    var m := if d < 0.0 then -d else d;
    e := Quotient(a, m + 1.0);
    forall f | -e <= f <= e ensures HalfValue(h, Toward(z, y, f)) >= 0.0 {
      ValueToward(h, z, y, f, d);
      SmallProduct(e, f, d, m, a);
    }
  }

  lemma Quotient(a: real, b: real) returns (e: real)
    requires a > 0.0 && b > 0.0
    ensures e > 0.0 && e * b == a
  {
    e := a / b;
  }

  lemma ValueToward(h: Half, z: Point, y: Point, f: real, d: real)
    requires |z| == |y| && d == HalfValue(h, y) - HalfValue(h, z)
    ensures HalfValue(h, Toward(z, y, f)) == HalfValue(h, z) + f * d
  {
    hide Dot, Toward;
    DotToward(h.coeffs, z, y, f);
    assert d == Dot(h.coeffs, y) - Dot(h.coeffs, z);
  }

  lemma SmallProduct(e: real, f: real, d: real, m: real, a: real)
    requires -e <= f <= e && -m <= d <= m && 0.0 < e && 0.0 <= m && e * (m + 1.0) == a
    ensures a + f * d >= 0.0
  {
    assert e * (m + 1.0) == e * m + e;
    if f >= 0.0 {
      OneSide(e, f, d, m);
    } else {
      OneSide(e, -f, -d, m);
      assert -f * -d == f * d;
    }
  }

  lemma OneSide(e: real, f: real, d: real, m: real)
    requires 0.0 <= f <= e && -m <= d <= m
    ensures f * d >= -(e * m)
  {
    NonNegative(f, m + d);
    NonNegative(e - f, m);
    assert f * (m + d) == f * m + f * d;
    assert (e - f) * m == e * m - f * m;
  }

  lemma NonNegative(a: real, b: real)
    requires a >= 0.0 && b >= 0.0
    ensures a * b >= 0.0
  {
  }

  // ----- Maxima ---------------------------------------------------------------------------------------------------

  ghost predicate AllSat(hs: seq<Half>, z: Point) {
    forall k :: 0 <= k < |hs| ==> Sat(hs[k], z)
  }

  ghost predicate Feasible(hs: seq<Half>, n: nat, z: Point) {
    |z| == n && AllSat(hs, z)
  }

  ghost predicate InBoth(hs: seq<Half>, eqs: seq<Half>, n: nat, z: Point) {
    Feasible(hs, n, z) && Solves(eqs, n, z)
  }

  /** c is greatest at z. */
  ghost predicate Greatest(hs: seq<Half>, eqs: seq<Half>, n: nat, c: Row, z: Point) {
    && InBoth(hs, eqs, n, z)
    && forall y :: InBoth(hs, eqs, n, y) ==> Dot(c, y) <= Dot(c, z)
  }

  /** Where no constraint is tight, an objective is greatest only if it is constant. */
  lemma GreatestInside(hs: seq<Half>, eqs: seq<Half>, n: nat, c: Row, z: Point)
    requires Equations(eqs, n) && Greatest(hs, eqs, n, c, z) && Inner(hs, z)
    ensures Constant(eqs, n, c, Dot(c, z))
  {
    hide Dot, HalfValue, Toward, Inner, Blend, Sat;
    forall y | Solves(eqs, n, y) ensures Dot(c, y) == Dot(c, z) {
      var e := SmallStep(hs, z, y);
      var f := -e;
      assert -e <= f <= e && -e <= e <= e;
      StepsAway(hs, eqs, n, z, y, e);
      StepsAway(hs, eqs, n, z, y, f);
      DotToward(c, z, y, e);
      DotToward(c, z, y, f);
      BothWays(e, f, Dot(c, z), Dot(c, y));
    }
  }

  lemma BothWays(e: real, f: real, a: real, b: real)
    requires e > 0.0 && f == -e && Blend(a, b, e) <= a && Blend(a, b, f) <= a
    ensures b == a
  {
    var v := b - a;
    assert e * v <= 0.0 && f * v <= 0.0;
    assert f * v == -(e * v);
    assert v > 0.0 ==> e * v > 0.0;
    assert v < 0.0 ==> e * -v > 0.0 && e * -v == -(e * v);
  }

  lemma StepsAway(hs: seq<Half>, eqs: seq<Half>, n: nat, z: Point, y: Point, f: real)
    requires Feasible(hs, n, z) && Inner(hs, z) && Solves(eqs, n, z) && Solves(eqs, n, y)
    requires forall k :: 0 <= k < |hs| ==> HalfValue(hs[k], Toward(z, y, f)) >= 0.0
    ensures InBoth(hs, eqs, n, Toward(z, y, f))
  {
    hide Toward;
    forall k | 0 <= k < |eqs| ensures HalfValue(eqs[k], Toward(z, y, f)) == 0.0 {
      DotToward(eqs[k].coeffs, z, y, f);
      assert f * 0.0 == 0.0;
      assert Dot(eqs[k].coeffs, y) == Dot(eqs[k].coeffs, z);
    }
    forall k | 0 <= k < |hs| ensures Sat(hs[k], Toward(z, y, f)) {
      assert HalfValue(hs[k], z) > 0.0;
    }
  }

  /** Constraint j as an equation. */
  function AsEquation(h: Half): Half {
    Half(Equality, h.cst, h.coeffs)
  }

  function Without(hs: seq<Half>, j: nat): seq<Half>
    requires j < |hs|
  {
    hs[..j] + hs[j + 1..]
  }

  /** Where constraint j is tight, it may as well be an equation. */
  lemma TightGreatest(hs: seq<Half>, eqs: seq<Half>, n: nat, c: Row, z: Point, j: nat)
    requires Greatest(hs, eqs, n, c, z) && j < |hs| && HalfValue(hs[j], z) == 0.0
    ensures Greatest(Without(hs, j), eqs + [AsEquation(hs[j])], n, c, z)
  {
    TightBoth(hs, eqs, n, z, j);
    forall y | InBoth(Without(hs, j), eqs + [AsEquation(hs[j])], n, y) ensures Dot(c, y) <= Dot(c, z) {
      TightBoth(hs, eqs, n, y, j);
    }
  }

  lemma TightBoth(hs: seq<Half>, eqs: seq<Half>, n: nat, z: Point, j: nat)
    requires j < |hs|
    ensures InBoth(Without(hs, j), eqs + [AsEquation(hs[j])], n, z) <==> InBoth(hs, eqs, n, z) && HalfValue(hs[j], z) == 0.0
  {
    hide Sat;
    var less, more := Without(hs, j), eqs + [AsEquation(hs[j])];
    assert HalfValue(AsEquation(hs[j]), z) == HalfValue(hs[j], z);
    if InBoth(less, more, n, z) {
      assert more[|eqs|] == AsEquation(hs[j]);
      forall k | 0 <= k < |eqs| ensures HalfValue(eqs[k], z) == 0.0 {
        assert more[k] == eqs[k];
      }
      forall k | 0 <= k < |hs| ensures Sat(hs[k], z) {
        if k == j {
          ZeroSat(hs[j], z);
        } else {
          assert hs[k] == less[if k < j then k else k - 1];
        }
      }
    }
    if InBoth(hs, eqs, n, z) && HalfValue(hs[j], z) == 0.0 {
      forall k | 0 <= k < |less| ensures Sat(less[k], z) {
        assert less[k] == hs[if k < j then k else k + 1];
      }
    }
  }

  lemma ZeroSat(h: Half, z: Point)
    requires HalfValue(h, z) == 0.0
    ensures Sat(h, z)
  {
  }

  predicate HalvesSized(hs: seq<Half>, n: nat) {
    forall k :: 0 <= k < |hs| ==> |hs[k].coeffs| == n
  }

  /** One denominator for all maxima of integer objectives. */
  ghost predicate Denominator(d: real, hs: seq<Half>, eqs: seq<Half>, n: nat) {
    d > 0.0 && Whole(d) && forall c, z :: Greatest(hs, eqs, n, c, z) ==> Clears(d, Dot(c, z))
  }

  lemma {:induction false} DenominatorExists(hs: seq<Half>, eqs: seq<Half>, n: nat) returns (d: real)
    requires HalvesSized(hs, n) && Equations(eqs, n)
    ensures Denominator(d, hs, eqs, n)
    decreases |hs|, |hs| + 1
  {
    hide Clears, Greatest, Constant;
    var flat := FlatDenominator(eqs, n);
    var tight := TightDenominators(hs, eqs, n, |hs|);
    d := flat * tight;
    WholeProduct(flat, tight, d);
    forall c, z | Greatest(hs, eqs, n, c, z) ensures Clears(d, Dot(c, z)) {
      GreatestIn(hs, eqs, n, c, z);
      if j :| 0 <= j < |hs| && HalfValue(hs[j], z) == 0.0 {
        TightGreatest(hs, eqs, n, c, z, j);
        ClearsMore(flat, tight, d, Dot(c, z));
      } else {
        GreatestInside(hs, eqs, n, c, z);
        ClearsMore(tight, flat, d, Dot(c, z));
      }
    }
  }

  lemma GreatestIn(hs: seq<Half>, eqs: seq<Half>, n: nat, c: Row, z: Point)
    requires Greatest(hs, eqs, n, c, z)
    ensures Solves(eqs, n, z)
    ensures forall k :: 0 <= k < |hs| ==> HalfValue(hs[k], z) >= 0.0
  {
    forall k | 0 <= k < |hs| ensures HalfValue(hs[k], z) >= 0.0 {
      assert Sat(hs[k], z);
    }
  }

  /** One for each of the first m constraints taken as an equation, all in one. */
  lemma {:induction false} TightDenominators(hs: seq<Half>, eqs: seq<Half>, n: nat, m: nat) returns (d: real)
    requires HalvesSized(hs, n) && Equations(eqs, n) && m <= |hs|
    ensures d > 0.0 && Whole(d)
    ensures forall j: nat, c, z :: j < m && Greatest(Without(hs, j), eqs + [AsEquation(hs[j])], n, c, z) ==> Clears(d, Dot(c, z))
    decreases |hs|, m
  {
    hide Clears, Greatest;
    if m == 0 {
      d := 1.0;
    } else {
      var j := m - 1;
      var rest := TightDenominators(hs, eqs, n, j);
      var one := DenominatorExists(Without(hs, j), eqs + [AsEquation(hs[j])], n);
      d := rest * one;
      WholeProduct(rest, one, d);
      forall i: nat, c, z | i < m && Greatest(Without(hs, i), eqs + [AsEquation(hs[i])], n, c, z)
        ensures Clears(d, Dot(c, z))
      {
        if i == j {
          ClearsMore(rest, one, d, Dot(c, z));
        } else {
          ClearsMore(one, rest, d, Dot(c, z));
        }
      }
    }
  }

  // ----- Pairs of points ------------------------------------------------------------------------------------------

  ghost function PolyOfHalves(hs: seq<Half>, n: nat): Poly {
    iset x: Point | Feasible(hs, n, x)
  }

  function Nothing(n: nat): Row {
    seq(n, _ => 0)
  }

  /** Pairs (x, y), as one point of twice the dimension: both satisfy the constraints, and they agree on
      the rows. */
  function Pairs(hs: seq<Half>, R: seq<Row>, n: nat): seq<Half> {
    Firsts(hs, n) + Seconds(hs, n) + Agreements(R)
  }

  function Firsts(hs: seq<Half>, n: nat): seq<Half> {
    seq(|hs|, k requires 0 <= k < |hs| => OnFirst(hs[k], n))
  }

  function Seconds(hs: seq<Half>, n: nat): seq<Half> {
    seq(|hs|, k requires 0 <= k < |hs| => OnSecond(hs[k], n))
  }

  function Agreements(R: seq<Row>): seq<Half> {
    seq(|R|, k requires 0 <= k < |R| => Agreeing(R[k]))
  }

  function OnFirst(h: Half, n: nat): Half {
    Half(h.kind, h.cst, h.coeffs + Nothing(n))
  }

  function OnSecond(h: Half, n: nat): Half {
    Half(h.kind, h.cst, Nothing(n) + h.coeffs)
  }

  function Agreeing(r: Row): Half {
    Half(Equality, 0, Difference(r))
  }

  /** r on x minus r on y. */
  function Difference(r: Row): Row {
    r + Scaled(-1, r)
  }

  lemma {:induction false} DotPair(a: Row, b: Row, x: Point, y: Point)
    requires |a| == |x|
    ensures Dot(a + b, x + y) == Dot(a, x) + Dot(b, y)
  {
    if a == [] {
      assert x == [] && a + b == b && x + y == y;
    } else {
      assert (a + b)[1..] == a[1..] + b && (x + y)[1..] == x[1..] + y;
      DotPair(a[1..], b, x[1..], y);
    }
  }

  lemma {:induction false} DotNegated(r: Row, x: Point)
    ensures Dot(Scaled(-1, r), x) == -Dot(r, x)
  {
    if r != [] && x != [] {
      assert Scaled(-1, r)[1..] == Scaled(-1, r[1..]);
      DotNegated(r[1..], x[1..]);
      TimesIsProduct(r[0], x[0]);
      TimesIsProduct(-r[0], x[0]);
    }
  }

  lemma DotDifference(r: Row, x: Point, y: Point)
    requires |r| == |x|
    ensures Dot(Difference(r), x + y) == Diff(r, x, y)
  {
    DotPair(r, Scaled(-1, r), x, y);
    DotNegated(r, y);
  }

  lemma PairSat(h: Half, n: nat, x: Point, y: Point)
    requires |x| == |y| == n == |h.coeffs|
    ensures Sat(OnFirst(h, n), x + y) <==> Sat(h, x)
    ensures Sat(OnSecond(h, n), x + y) <==> Sat(h, y)
  {
    DotPair(h.coeffs, Nothing(n), x, y);
    DotPair(Nothing(n), h.coeffs, x, y);
    DotZero(Nothing(n), x);
    DotZero(Nothing(n), y);
  }

  predicate RowsSized(R: seq<Row>, n: nat) {
    forall k :: 0 <= k < |R| ==> |R[k]| == n
  }

  lemma PairsMeaning(hs: seq<Half>, R: seq<Row>, n: nat, x: Point, y: Point)
    requires HalvesSized(hs, n) && RowsSized(R, n) && |x| == |y| == n
    ensures Feasible(Pairs(hs, R, n), 2 * n, x + y) <==> Feasible(hs, n, x) && Feasible(hs, n, y) && Agree(R, x, y)
  {
    hide Sat, AllSat;
    AllSatBoth(Firsts(hs, n) + Seconds(hs, n), Agreements(R), x + y);
    AllSatBoth(Firsts(hs, n), Seconds(hs, n), x + y);
    FirstsMean(hs, n, x, y);
    SecondsMean(hs, n, x, y);
    AgreementsMean(R, x, y);
  }

  lemma AllSatBoth(a: seq<Half>, b: seq<Half>, z: Point)
    ensures AllSat(a + b, z) <==> AllSat(a, z) && AllSat(b, z)
  {
    hide Sat;
    if AllSat(a + b, z) {
      forall k | 0 <= k < |a| ensures Sat(a[k], z) {
        assert (a + b)[k] == a[k];
      }
      forall k | 0 <= k < |b| ensures Sat(b[k], z) {
        assert (a + b)[|a| + k] == b[k];
      }
    }
  }

  lemma FirstsMean(hs: seq<Half>, n: nat, x: Point, y: Point)
    requires HalvesSized(hs, n) && |x| == |y| == n
    ensures AllSat(Firsts(hs, n), x + y) <==> AllSat(hs, x)
  {
    hide Sat, OnFirst;
    forall k | 0 <= k < |hs| ensures Sat(Firsts(hs, n)[k], x + y) <==> Sat(hs[k], x) {
      PairSat(hs[k], n, x, y);
    }
  }

  lemma SecondsMean(hs: seq<Half>, n: nat, x: Point, y: Point)
    requires HalvesSized(hs, n) && |x| == |y| == n
    ensures AllSat(Seconds(hs, n), x + y) <==> AllSat(hs, y)
  {
    hide Sat, OnSecond;
    forall k | 0 <= k < |hs| ensures Sat(Seconds(hs, n)[k], x + y) <==> Sat(hs[k], y) {
      PairSat(hs[k], n, x, y);
    }
  }

  lemma AgreementsMean(R: seq<Row>, x: Point, y: Point)
    requires RowsSized(R, |x|)
    ensures AllSat(Agreements(R), x + y) <==> Agree(R, x, y)
  {
    hide Sat, Agreeing;
    forall k | 0 <= k < |R| ensures Sat(Agreements(R)[k], x + y) <==> Diff(R[k], x, y) == 0.0 {
      AgreeingSat(R[k], x, y);
    }
  }

  lemma AgreeingSat(r: Row, x: Point, y: Point)
    requires |r| == |x|
    ensures Sat(Agreeing(r), x + y) <==> Diff(r, x, y) == 0.0
  {
    DotDifference(r, x, y);
  }

  lemma PairsSized(hs: seq<Half>, R: seq<Row>, n: nat)
    requires HalvesSized(hs, n) && RowsSized(R, n)
    ensures HalvesSized(Pairs(hs, R, n), 2 * n)
  {
  }

  /** A width is a greatest value over pairs. */
  lemma WidthIsGreatest(hs: seq<Half>, R: seq<Row>, n: nat, row: Row, F: real) returns (z: Point)
    requires HalvesSized(hs, n) && RowsSized(R, n) && |row| == n && IsWidth(PolyOfHalves(hs, n), R, row, F)
    ensures Greatest(Pairs(hs, R, n), [], 2 * n, Difference(row), z) && Dot(Difference(row), z) == F
  {
    hide Pairs, Difference, Dot, Sat;
    var P := PolyOfHalves(hs, n);
    var x, y :| x in P && y in P && Agree(R, x, y) && F <= Diff(row, x, y);
    z := x + y;
    PairsMeaning(hs, R, n, x, y);
    DotDifference(row, x, y);
    forall u | InBoth(Pairs(hs, R, n), [], 2 * n, u) ensures Dot(Difference(row), u) <= Dot(Difference(row), z) {
      var v, w := u[..n], u[n..];
      assert u == v + w;
      PairsMeaning(hs, R, n, v, w);
      DotDifference(row, v, w);
    }
  }

  /** The widths of integer rows over one polytope and given the same rows are zero or at least some gap. */
  lemma WidthGap(hs: seq<Half>, R: seq<Row>, n: nat) returns (gap: real)
    requires HalvesSized(hs, n) && RowsSized(R, n)
    ensures gap > 0.0
    ensures forall row, F :: |row| == n && IsWidth(PolyOfHalves(hs, n), R, row, F) ==> F == 0.0 || F >= gap
  {
    hide Greatest, IsWidth, Pairs, Dot;
    PairsSized(hs, R, n);
    var d := DenominatorExists(Pairs(hs, R, n), [], 2 * n);
    gap := 1.0 / d;
    forall row, F | |row| == n && IsWidth(PolyOfHalves(hs, n), R, row, F) ensures F == 0.0 || F >= gap {
      var z := WidthIsGreatest(hs, R, n, row, F);
      WidthNonNegative(PolyOfHalves(hs, n), R, row, F);
      if F > 0.0 {
        AtLeastOne(d, F, gap);
      }
    }
  }

  lemma AtLeastOne(d: real, F: real, gap: real)
    requires Clears(d, F) && F > 0.0 && gap == 1.0 / d
    ensures F >= gap
  {
    assert gap * d == 1.0;
    var v := d * F;
    assert v > 0.0;
    assert v >= 1.0;
    assert (F - gap) * d == v - 1.0;
    SameSign(F - gap, d);
  }

  lemma SameSign(a: real, d: real)
    requires d > 0.0 && a * d >= 0.0
    ensures a >= 0.0
  {
  }
}
