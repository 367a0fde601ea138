/** Widths of a polytope in a direction, restricted to pairs of points that agree on given rows,
    and the consequences of linear programming duality that the basis reduction relies on.

    The width F_R(b) is the maximum of b.(x - y) over points x, y of P with r.x = r.y for r in R. */
module Widths {
  import opened Vectors

  /** A set of points. */
  type Poly = iset<Point>

  ghost predicate Agree(R: seq<Row>, x: Point, y: Point) {
    forall k :: 0 <= k < |R| ==> Diff(R[k], x, y) == 0.0
  }

  ghost predicate AtMost(P: Poly, R: seq<Row>, b: Row, F: real) {
    forall x, y :: x in P && y in P && Agree(R, x, y) ==> Diff(b, x, y) <= F
  }

  ghost predicate AtLeast(P: Poly, R: seq<Row>, b: Row, F: real) {
    exists x, y :: x in P && y in P && Agree(R, x, y) && F <= Diff(b, x, y)
  }

  /** F is the width of P in direction b over pairs that agree on R. */
  ghost predicate IsWidth(P: Poly, R: seq<Row>, b: Row, F: real) {
    AtMost(P, R, b, F) && AtLeast(P, R, b, F)
  }

  ghost predicate ConstantOn(P: Poly, r: Row) {
    forall x, y :: x in P && y in P ==> Diff(r, x, y) == 0.0
  }

  lemma WidthUnique(P: Poly, R: seq<Row>, b: Row, F: real, G: real)
    requires IsWidth(P, R, b, F) && IsWidth(P, R, b, G)
    ensures F == G
  {
    var x, y :| x in P && y in P && Agree(R, x, y) && F <= Diff(b, x, y);
    var u, v :| u in P && v in P && Agree(R, u, v) && G <= Diff(b, u, v);
  }

  lemma WidthNonNegative(P: Poly, R: seq<Row>, b: Row, F: real)
    requires IsWidth(P, R, b, F)
    ensures 0.0 <= F
  {
    var x, y :| x in P && y in P && Agree(R, x, y) && F <= Diff(b, x, y);
    assert Agree(R, x, x);
    assert Diff(b, x, x) == 0.0;
  }

  /** A row that is constant on P restricts nothing. */
  lemma ConstantRow(P: Poly, R: seq<Row>, r: Row, b: Row, F: real)
    requires ConstantOn(P, r)
    ensures IsWidth(P, R + [r], b, F) <==> IsWidth(P, R, b, F)
  {
    forall x, y | x in P && y in P
      ensures Agree(R + [r], x, y) <==> Agree(R, x, y)
    {
      AgreeSnoc(R, r, x, y);
    }
  }

  lemma AgreeSnoc(R: seq<Row>, r: Row, x: Point, y: Point)
    ensures Agree(R + [r], x, y) <==> Agree(R, x, y) && Diff(r, x, y) == 0.0
  {
    if Agree(R + [r], x, y) {
      assert (R + [r])[|R|] == r;
      forall k | 0 <= k < |R| ensures Diff(R[k], x, y) == 0.0 {
        assert (R + [r])[k] == R[k];
      }
    }
  }

  lemma AgreeSymmetric(R: seq<Row>, x: Point, y: Point)
    ensures Agree(R, x, y) <==> Agree(R, y, x)
  {
    forall k | 0 <= k < |R| ensures Diff(R[k], x, y) == -Diff(R[k], y, x) { }
  }

  /** Adding a multiple of a row that is already an equality does not change the width. */
  lemma ShearAlongRow(P: Poly, R: seq<Row>, r: Row, b: Row, t: int, F: real)
    requires |b| == |r|
    requires IsWidth(P, R + [r], b, F)
    ensures IsWidth(P, R + [r], Combine(b, t, r), F)
  {
    forall x, y | x in P && y in P && Agree(R + [r], x, y)
      ensures Diff(Combine(b, t, r), x, y) == Diff(b, x, y)
    {
      AgreeSnoc(R, r, x, y);
      DiffCombine(b, t, r, x, y);
      TimesZero(t);
    }
  }

  // ----- Duality ------------------------------------------------------------------------------

  /** The inner product of two sequences of rationals. */
  ghost function Sum(alpha: seq<real>, ds: seq<real>): real
    requires |alpha| == |ds|
  {
    if alpha == [] then 0.0
    else
      var n := |alpha| - 1;
      Sum(alpha[..n], ds[..n]) + alpha[n] * ds[n]
  }

  /** Of the terms from a to b only the first is not zero. */
  lemma {:induction false} SumSkips(alpha: seq<real>, ds: seq<real>, a: nat, b: nat)
    requires |alpha| == |ds| && a < b <= |alpha|
    requires forall k :: a < k < b ==> alpha[k] == 0.0
    ensures Sum(alpha[..b], ds[..b]) == Sum(alpha[..a], ds[..a]) + alpha[a] * ds[a]
    decreases b
  {
    assert alpha[..b][..b - 1] == alpha[..b - 1] && ds[..b][..b - 1] == ds[..b - 1];
    if a < b - 1 {
      SumSkips(alpha, ds, a, b - 1);
    }
  }

  lemma {:induction false} SumEnds(alpha: seq<real>, ds: seq<real>)
    requires |alpha| == |ds|
    ensures alpha[..|alpha|] == alpha && ds[..|ds|] == ds && Sum(alpha[..0], ds[..0]) == 0.0
  {
  }

  lemma {:induction false} SumSnoc(alpha: seq<real>, a: real, ds: seq<real>, d: real)
    requires |alpha| == |ds|
    ensures Sum(alpha + [a], ds + [d]) == Sum(alpha, ds) + a * d
  {
    hide Sum;
    var n, alpha', ds' := |alpha|, alpha + [a], ds + [d];
    assert alpha'[..n] == alpha && ds'[..n] == ds && alpha'[n] == a && ds'[n] == d;
    SumUnfolds(alpha', ds');
  }

  lemma {:induction false} SumUnfolds(alpha: seq<real>, ds: seq<real>)
    requires |alpha| == |ds| && alpha != []
    ensures var n := |alpha| - 1; Sum(alpha, ds) == Sum(alpha[..n], ds[..n]) + alpha[n] * ds[n]
  {
  }

  /** Only the weights of nonzero entries matter. */
  lemma {:induction false} SumChange(alpha: seq<real>, beta: seq<real>, ds: seq<real>)
    requires |alpha| == |beta| == |ds|
    requires forall k :: 0 <= k < |ds| ==> alpha[k] == beta[k] || ds[k] == 0.0
    ensures Sum(alpha, ds) == Sum(beta, ds)
  {
    if ds == [] {
    } else {
      var n := |ds| - 1;
      SumChange(alpha[..n], beta[..n], ds[..n]);
      assert alpha[n] * ds[n] == beta[n] * ds[n];
    }
  }

  lemma {:induction false} SumZero(alpha: seq<real>, ds: seq<real>)
    requires |alpha| == |ds|
    requires forall k :: 0 <= k < |ds| ==> ds[k] == 0.0
    ensures Sum(alpha, ds) == 0.0
  {
    if ds == [] {
    } else {
      var n := |ds| - 1;
      SumZero(alpha[..n], ds[..n]);
    }
  }

  ghost function Diffs(R: seq<Row>, x: Point, y: Point): (ds: seq<real>)
    ensures |ds| == |R|
  {
    seq(|R|, k requires 0 <= k < |R| => Diff(R[k], x, y))
  }

  /** The sum of alpha[k] * R[k].(x - y). */
  ghost function Weighted(R: seq<Row>, alpha: seq<real>, x: Point, y: Point): real
    requires |alpha| == |R|
  {
    Sum(alpha, Diffs(R, x, y))
  }

  lemma WeightedSnoc(R: seq<Row>, r: Row, alpha: seq<real>, a: real, x: Point, y: Point)
    requires |alpha| == |R|
    ensures Weighted(R + [r], alpha + [a], x, y) == Weighted(R, alpha, x, y) + a * Diff(r, x, y)
  {
    assert Diffs(R + [r], x, y) == Diffs(R, x, y) + [Diff(r, x, y)];
    SumSnoc(alpha, a, Diffs(R, x, y), Diff(r, x, y));
  }

  /** alpha proves that F is an upper bound: the rows, so weighted, reduce the whole problem to
      an unrestricted one whose width is at most F. */
  ghost predicate Dual(P: Poly, R: seq<Row>, alpha: seq<real>, b: Row, F: real) {
    && |alpha| == |R|
    && forall x, y :: x in P && y in P ==> Diff(b, x, y) + Weighted(R, alpha, x, y) <= F
  }

  /** What an LP solver returns: a value that is reached, with multipliers that prove it optimal. */
  ghost predicate Optimal(P: Poly, R: seq<Row>, alpha: seq<real>, b: Row, F: real) {
    Dual(P, R, alpha, b, F) && AtLeast(P, R, b, F)
  }

  lemma WeightedAgree(R: seq<Row>, alpha: seq<real>, x: Point, y: Point)
    requires |alpha| == |R|
    requires Agree(R, x, y)
    ensures Weighted(R, alpha, x, y) == 0.0
  {
    SumZero(alpha, Diffs(R, x, y));
  }

  lemma OptimalIsWidth(P: Poly, R: seq<Row>, alpha: seq<real>, b: Row, F: real)
    requires Optimal(P, R, alpha, b, F)
    ensures IsWidth(P, R, b, F)
  {
    forall x, y | x in P && y in P && Agree(R, x, y) ensures Diff(b, x, y) <= F {
      WeightedAgree(R, alpha, x, y);
    }
  }

  /** The multipliers of rows that are constant on P are irrelevant. */
  lemma OptimalChange(P: Poly, R: seq<Row>, alpha: seq<real>, beta: seq<real>, b: Row, F: real)
    requires Optimal(P, R, alpha, b, F)
    requires |beta| == |R|
    requires forall k :: 0 <= k < |R| ==> alpha[k] == beta[k] || ConstantOn(P, R[k])
    ensures Optimal(P, R, beta, b, F)
  {
    forall x, y | x in P && y in P ensures Diff(b, x, y) + Weighted(R, beta, x, y) <= F {
      SumChange(alpha, beta, Diffs(R, x, y));
    }
  }

  /** The fact behind `get_alpha`: when the multiplier of the last row is an integer m, dropping
      that row and adding m times it to b keeps the optimum and its remaining multipliers. */
  lemma FoldLastRow(P: Poly, R: seq<Row>, r: Row, alpha: seq<real>, b: Row, m: int, F: real)
    requires |b| == |r|
    requires Optimal(P, R + [r], alpha + [m as real], b, F)
    ensures Optimal(P, R, alpha, Combine(b, m, r), F)
  {
    forall x, y | x in P && y in P
      ensures Diff(Combine(b, m, r), x, y) + Weighted(R, alpha, x, y) <= F
    {
      FoldAt(R, r, alpha, b, m, x, y);
    }
    RestrictedIsLower(P, R, r, b, m, F);
  }

  lemma FoldAt(R: seq<Row>, r: Row, alpha: seq<real>, b: Row, m: int, x: Point, y: Point)
    requires |b| == |r| && |alpha| == |R|
    ensures Diff(Combine(b, m, r), x, y) + Weighted(R, alpha, x, y)
         == Diff(b, x, y) + Weighted(R + [r], alpha + [m as real], x, y)
  {
    hide Dot, Weighted, Times;
    DiffCombine(b, m, r, x, y);
    WeightedSnoc(R, r, alpha, m as real, x, y);
    TimesIsProduct(m, Diff(r, x, y));
  }

  /** The width with r as an equality bounds the width of every b + t*r from below. */
  lemma RestrictedIsLower(P: Poly, R: seq<Row>, r: Row, b: Row, t: int, F: real)
    requires |b| == |r|
    requires AtLeast(P, R + [r], b, F)
    ensures AtLeast(P, R, Combine(b, t, r), F)
  {
    var x, y :| x in P && y in P && Agree(R + [r], x, y) && F <= Diff(b, x, y);
    AgreeSnoc(R, r, x, y);
    assert Diff(Combine(b, t, r), x, y) == Diff(b, x, y) by {
      DiffCombine(b, t, r, x, y);
      TimesZero(t);
    }
  }

  // ----- The best integer multiple --------------------------------------------------------------

  /** No integer multiple of r added to c lowers the width below G. */
  ghost predicate NoBetterMultiple(P: Poly, R: seq<Row>, r: Row, c: Row, G: real)
    requires |c| == |r|
  {
    forall t: int :: AtLeast(P, R, Combine(c, t, r), G)
  }

  lemma CombineTwice(b: Row, m: int, t: int, r: Row)
    requires |b| == |r|
    ensures Combine(Combine(b, m, r), t, r) == Combine(b, m + t, r)
  {
    forall k | 0 <= k < |b| ensures b[k] + m * r[k] + t * r[k] == b[k] + (m + t) * r[k] { }
  }

  /** With an integer multiplier the fold is already best. */
  lemma IntegerMultiplierIsBest(P: Poly, R: seq<Row>, r: Row, alpha: seq<real>, b: Row, m: int, F: real)
    requires |b| == |r|
    requires Optimal(P, R + [r], alpha + [m as real], b, F)
    ensures NoBetterMultiple(P, R, r, Combine(b, m, r), F)
  {
    forall t: int ensures AtLeast(P, R, Combine(Combine(b, m, r), t, r), F) {
      CombineTwice(b, m, t, r);
      RestrictedIsLower(P, R, r, b, m + t, F);
    }
  }

  /** One side of the choice: if the optimal multiplier a lies above m, then b + m*r is at least
      as good as b + t*r for every t <= m; symmetrically below. The pair that realises the width
      of b + m*r cannot gain by moving towards a, so it does not lose by moving away from it. */
  lemma OneSided(P: Poly, R: seq<Row>, r: Row, alpha: seq<real>, a: real, b: Row, m: int, t: int,
                 F: real, G: real)
    requires |b| == |r|
    requires Optimal(P, R + [r], alpha + [a], b, F)
    requires IsWidth(P, R, Combine(b, m, r), G)
    requires (t <= m && (m as real) < a) || (m <= t && a < m as real)
    ensures AtLeast(P, R, Combine(b, t, r), G)
  {
    RestrictedIsLower(P, R, r, b, m, F);
    AtLeastAtMost(P, R, Combine(b, m, r), F, G);
    var x, y :| x in P && y in P && Agree(R, x, y) && G <= Diff(Combine(b, m, r), x, y);
    OptimalAt(P, R, r, alpha, a, b, F, x, y);
    AwayFromOptimum(b, r, x, y, a, m, t, F, G);
  }

  lemma AtLeastAtMost(P: Poly, R: seq<Row>, b: Row, F: real, G: real)
    requires AtLeast(P, R, b, F) && AtMost(P, R, b, G)
    ensures F <= G
  {
    var u, v :| u in P && v in P && Agree(R, u, v) && F <= Diff(b, u, v);
  }

  lemma OptimalAt(P: Poly, R: seq<Row>, r: Row, alpha: seq<real>, a: real, b: Row, F: real, x: Point, y: Point)
    requires Optimal(P, R + [r], alpha + [a], b, F)
    requires x in P && y in P && Agree(R, x, y)
    ensures Diff(b, x, y) + Product(a, Diff(r, x, y)) <= F
  {
    var w := Weighted(R + [r], alpha + [a], x, y);
    assert Diff(b, x, y) + w <= F;
    assert w == Product(a, Diff(r, x, y)) by {
      WeightedAgree(R, alpha, x, y);
      WeightedSnoc(R, r, alpha, a, x, y);
    }
  }

  lemma AwayFromOptimum(b: Row, r: Row, x: Point, y: Point, a: real, m: int, t: int, F: real, G: real)
    requires |b| == |r|
    requires Diff(b, x, y) + Product(a, Diff(r, x, y)) <= F <= G <= Diff(Combine(b, m, r), x, y)
    requires (t <= m && (m as real) < a) || (m <= t && a < m as real)
    ensures G <= Diff(Combine(b, t, r), x, y)
  {
    hide Product, Times;
    DiffCombine(b, m, r, x, y);
    DiffCombine(b, t, r, x, y);
    OnTheLine(Diff(b, x, y), Diff(r, x, y), a, m, t, F, G);
  }

  /** A product with a name, so that proofs about it can stay linear. */
  function Product(p: real, q: real): real {
    p * q
  }

  lemma TimesProduct(m: int, d: real)
    ensures Times(m, d) == Product(m as real, d)
  {
    TimesIsProduct(m, d);
  }

  lemma OnTheLine(o: real, d: real, a: real, m: int, t: int, F: real, G: real)
    requires o + Product(a, d) <= F <= G <= o + Times(m, d)
    requires (t <= m && (m as real) < a) || (m <= t && a < m as real)
    ensures G <= o + Times(t, d)
  {
    hide Product, Times;
    if d == 0.0 {
      TimesZero(m);
      TimesZero(t);
    } else {
      TimesOrder(m, t, a, d);
    }
  }

  lemma TimesOrder(m: int, t: int, a: real, d: real)
    requires Product(a, d) <= Times(m, d) && d != 0.0
    requires (t <= m && (m as real) < a) || (m <= t && a < m as real)
    ensures Times(m, d) <= Times(t, d)
  {
    hide Product, Times;
    TimesProduct(m, d);
    if (m as real) < a {
      ProductOrder(m as real, a, d);
      TimesMonotone(t, m, -d);
      TimesNegate(t, d);
      TimesNegate(m, d);
    } else {
      ProductOrder(a, m as real, d);
      TimesMonotone(m, t, d);
    }
  }

  lemma ProductOrder(p: real, q: real, d: real)
    requires p < q && d != 0.0
    ensures d > 0.0 ==> Product(p, d) < Product(q, d)
    ensures d < 0.0 ==> Product(q, d) < Product(p, d)
  {
    if d > 0.0 {
      assert (q - p) * d > 0.0;
    } else {
      assert (q - p) * (-d) > 0.0;
    }
  }

  /** Floor or ceiling of a fractional multiplier, whichever gives the smaller width, is the best
      integer: `if (GBR_lt(mu_F[0], mu_F[1])) j = 0; else j = 1;`. */
  lemma FloorOrCeilIsBest(P: Poly, R: seq<Row>, r: Row, alpha: seq<real>, a: real, b: Row,
                          F: real, G0: real, G1: real)
    requires |b| == |r|
    requires Optimal(P, R + [r], alpha + [a], b, F)
    requires a.Floor != Ceil(a)
    requires IsWidth(P, R, Combine(b, a.Floor, r), G0)
    requires IsWidth(P, R, Combine(b, Ceil(a), r), G1)
    ensures G0 < G1 ==> NoBetterMultiple(P, R, r, Combine(b, a.Floor, r), G0)
    ensures G1 <= G0 ==> NoBetterMultiple(P, R, r, Combine(b, Ceil(a), r), G1)
  {
    forall m: int, t: int ensures G0 <= G1 ==> AtLeast(P, R, Combine(Combine(b, m, r), t, r), G0)
                          ensures G1 <= G0 ==> AtLeast(P, R, Combine(Combine(b, m, r), t, r), G1) {
      CombineTwice(b, m, t, r);
      EitherSide(P, R, r, alpha, a, b, m + t, F, G0, G1);
    }
  }

  lemma EitherSide(P: Poly, R: seq<Row>, r: Row, alpha: seq<real>, a: real, b: Row, s: int,
                   F: real, G0: real, G1: real)
    requires |b| == |r|
    requires Optimal(P, R + [r], alpha + [a], b, F)
    requires a.Floor != Ceil(a)
    requires IsWidth(P, R, Combine(b, a.Floor, r), G0)
    requires IsWidth(P, R, Combine(b, Ceil(a), r), G1)
    ensures AtLeast(P, R, Combine(b, s, r), if G0 < G1 then G0 else G1)
  {
    if s <= a.Floor {
      OneSided(P, R, r, alpha, a, b, a.Floor, s, F, G0);
    } else {
      OneSided(P, R, r, alpha, a, b, Ceil(a), s, F, G1);
    }
  }
}
