/** Integer rows and rational points, the two kinds of vector the basis reduction works with.
    Values computed from rationals are exact, so points and widths are modelled over `real`. */
module Vectors {

  type Row = seq<int>
  type Point = seq<real>

  /** The integer multiple n * q, by repeated addition: unfolding it keeps proofs linear. */
  function Times(n: int, q: real): real
    decreases if n < 0 then -n else n
  {
    if n == 0 then 0.0 else if n > 0 then Times(n - 1, q) + q else Times(n + 1, q) - q
  }

  lemma {:induction false} TimesIsProduct(n: int, q: real)
    ensures Times(n, q) == n as real * q
    decreases if n < 0 then -n else n
  {
    if n > 0 {
      TimesIsProduct(n - 1, q);
    } else if n < 0 {
      TimesIsProduct(n + 1, q);
    }
  }

  lemma {:induction false} TimesMonotone(m: int, n: int, q: real)
    requires m <= n && 0.0 <= q
    ensures Times(m, q) <= Times(n, q)
    decreases n - m
  {
    if m < n {
      TimesMonotone(m + 1, n, q);
    }
  }

  lemma {:induction false} TimesNegate(n: int, q: real)
    ensures Times(n, -q) == -Times(n, q)
    decreases if n < 0 then -n else n
  {
    if n > 0 {
      TimesNegate(n - 1, q);
    } else if n < 0 {
      TimesNegate(n + 1, q);
    }
  }

  /** The inner product of an integer row with a point. */
  function Dot(r: Row, x: Point): real {
    if r == [] || x == [] then 0.0 else Times(r[0], x[0]) + Dot(r[1..], x[1..])
  }

  /** How much the linear form r changes from y to x. */
  function Diff(r: Row, x: Point, y: Point): real {
    Dot(r, x) - Dot(r, y)
  }

  /** b + t * c, element by element. */
  function Combine(b: Row, t: int, c: Row): (r: Row)
    requires |b| == |c|
    ensures |r| == |b|
    ensures forall k :: 0 <= k < |b| ==> r[k] == b[k] + t * c[k]
  {
    seq(|b|, k requires 0 <= k < |b| => b[k] + t * c[k])
  }

  lemma {:induction false} TimesAdd(m: int, n: int, q: real)
    ensures Times(m + n, q) == Times(m, q) + Times(n, q)
    decreases if n < 0 then -n else n
  {
    if n > 0 {
      TimesAdd(m, n - 1, q);
    } else if n < 0 {
      TimesAdd(m, n + 1, q);
    }
  }

  lemma {:induction false} TimesTimes(t: int, n: int, q: real)
    ensures Times(t * n, q) == Times(t, Times(n, q))
    decreases if t < 0 then -t else t
  {
    hide Times;
    TimesUnfolds(t, Times(n, q));
    if t > 0 {
      TimesTimes(t - 1, n, q);
      TimesAddTo((t - 1) * n, n, t * n, q);
    } else if t < 0 {
      TimesTimes(t + 1, n, q);
      TimesAddTo(t * n, n, (t + 1) * n, q);
    } else {
      TimesUnfolds(0, q);
    }
  }

  lemma TimesUnfolds(t: int, q: real)
    ensures t == 0 ==> Times(t, q) == 0.0
    ensures t > 0 ==> Times(t, q) == Times(t - 1, q) + q
    ensures t < 0 ==> Times(t, q) == Times(t + 1, q) - q
  {
  }

  lemma TimesAddTo(m: int, n: int, sum: int, q: real)
    requires m + n == sum
    ensures Times(sum, q) == Times(m, q) + Times(n, q)
  {
    TimesAdd(m, n, q);
  }

  lemma TimesZero(t: int)
    ensures Times(t, 0.0) == 0.0
  {
    TimesIsProduct(t, 0.0);
  }

  lemma {:induction false} TimesDistributes(t: int, p: real, q: real)
    ensures Times(t, p + q) == Times(t, p) + Times(t, q)
    decreases if t < 0 then -t else t
  {
    if t > 0 {
      TimesDistributes(t - 1, p, q);
    } else if t < 0 {
      TimesDistributes(t + 1, p, q);
    }
  }

  lemma {:induction false} DotCombine(b: Row, t: int, c: Row, x: Point)
    requires |b| == |c|
    ensures Dot(Combine(b, t, c), x) == Dot(b, x) + Times(t, Dot(c, x))
  {
    if b == [] || x == [] {
      TimesZero(t);
    } else {
      assert Combine(b, t, c)[1..] == Combine(b[1..], t, c[1..]);
      DotCombine(b[1..], t, c[1..], x[1..]);
      TimesAdd(b[0], t * c[0], x[0]);
      TimesTimes(t, c[0], x[0]);
      TimesDistributes(t, Times(c[0], x[0]), Dot(c[1..], x[1..]));
    }
  }

  lemma DiffCombine(b: Row, t: int, c: Row, x: Point, y: Point)
    requires |b| == |c|
    ensures Diff(Combine(b, t, c), x, y) == Diff(b, x, y) + Times(t, Diff(c, x, y))
  {
    DotCombine(b, t, c, x);
    DotCombine(b, t, c, y);
    TimesDistributes(t, Diff(c, x, y), Dot(c, y));
  }

  lemma CombineZero(b: Row, c: Row)
    requires |b| == |c|
    ensures Combine(b, 0, c) == b
  {
  }

  /** A point all of whose coordinates are integers. */
  ghost predicate Integral(x: Point) {
    forall k :: 0 <= k < |x| ==> x[k] == x[k].Floor as real
  }

  lemma {:induction false} IntegralDot(r: Row, x: Point)
    requires Integral(x)
    ensures Dot(r, x) == Dot(r, x).Floor as real
  {
    if r == [] || x == [] {
    } else {
      IntegralDot(r[1..], x[1..]);
      TimesIsProduct(r[0], x[0]);
      var d := Dot(r[1..], x[1..]).Floor;
      assert Times(r[0], x[0]) == (r[0] * x[0].Floor) as real;
      assert Dot(r, x) == (r[0] * x[0].Floor + d) as real;
    }
  }

  /** The least integer at or above q; GBR_ceil. `q.Floor` is GBR_floor. */
  function Ceil(q: real): (c: int)
    ensures c as real - 1.0 < q <= c as real
  {
    -(-q).Floor
  }
}
