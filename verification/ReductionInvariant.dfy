/** What holds at every step of the basis reduction, stated on values, and the facts that carry it
    from one step to the next. B is the basis (without its constant row and column), z0 the number
    of zero rows on entry, z the current number, i the row being looked at. */
module ReductionInvariant {
  import opened Vectors
  import opened Widths
  import opened Tableau
  import opened TabLp
  import opened Lattice

  // ----- Reducedness ------------------------------------------------------------------------------

  /** Rows b and c, in this order, are reduced: 4 F(c) >= 3 F(b), and no integer multiple of b
      added to c makes c narrower. */
  ghost predicate PairReduced(P: Poly, R: seq<Row>, b: Row, c: Row) {
    && |b| == |c|
    && exists F, G ::
         && IsWidth(P, R, b, F)
         && IsWidth(P, R, c, G)
         && 4.0 * G >= 3.0 * F
         && NoBetterMultiple(P, R, b, c, G)
  }

  ghost predicate ReducedBetween(P: Poly, B: seq<Row>, z0: nat, lo: nat, hi: nat)
    requires z0 <= lo && hi < |B|
  {
    forall k :: lo <= k < hi ==> PairReduced(P, B[z0..k], B[k], B[k + 1])
  }

  /** Rows i and i + 1 trade places. */
  function Exchanged(B: seq<Row>, i: nat): (B': seq<Row>)
    requires i + 1 < |B|
    ensures |B'| == |B|
  {
    B[i := B[i + 1]][i + 1 := B[i]]
  }

  // ----- Widths -----------------------------------------------------------------------------------

  ghost predicate ZeroRows(P: Poly, B: seq<Row>, F: seq<real>, z0: nat, z: nat)
    requires z <= |B| && z <= |F|
  {
    forall k :: z0 <= k < z ==> ConstantOn(P, B[k]) && F[k] == 0.0
  }

  /** F[k] is the true width of row k, given the rows z0..k before it. */
  ghost predicate WidthsKnown(P: Poly, B: seq<Row>, F: seq<real>, z0: nat, i: nat)
    requires i < |B| && i < |F|
  {
    forall k :: z0 <= k <= i ==> IsWidth(P, B[z0..k], B[k], F[k])
  }

  ghost predicate Bounded(P: Poly, b: Row) {
    exists M :: AtMost(P, [], b, M)
  }

  ghost predicate BoundedRows(P: Poly, B: seq<Row>, n: nat)
    requires n <= |B|
  {
    forall k :: 0 <= k < n ==> Bounded(P, B[k])
  }

  lemma BoundMeans(P: Poly, b: Row, M: real, x: Point, y: Point)
    requires AtMost(P, [], b, M) && x in P && y in P
    ensures -M <= Diff(b, x, y) <= M
  {
    assert Agree([], x, y) && Agree([], y, x);
  }

  lemma {:induction false} TimesBound(t: int, d: real, M: real)
    requires -M <= d <= M
    ensures Times(t, d) <= Times(if t < 0 then -t else t, M)
    decreases if t < 0 then -t else t
  {
    if t > 0 {
      TimesBound(t - 1, d, M);
    } else if t < 0 {
      TimesBound(t + 1, d, M);
    }
  }

  lemma BoundedCombine(P: Poly, b: Row, t: int, c: Row)
    requires |b| == |c| && Bounded(P, b) && Bounded(P, c)
    ensures Bounded(P, Combine(b, t, c))
  {
    var M :| AtMost(P, [], b, M);
    var N :| AtMost(P, [], c, N);
    var bound := M + Times(if t < 0 then -t else t, N);
    forall x, y | x in P && y in P && Agree([], x, y) ensures Diff(Combine(b, t, c), x, y) <= bound {
      BoundMeans(P, b, M, x, y);
      BoundMeans(P, c, N, x, y);
      TimesBound(t, Diff(c, x, y), N);
      DiffCombine(b, t, c, x, y);
    }
    assert AtMost(P, [], Combine(b, t, c), bound);
  }

  lemma AtMostSubset(P: Poly, Q: Poly, b: Row, M: real)
    requires Q <= P && AtMost(P, [], b, M)
    ensures AtMost(Q, [], b, M)
  {
  }

  lemma BoundedSubset(P: Poly, Q: Poly, B: seq<Row>, n: nat)
    requires n <= |B| && Q <= P && BoundedRows(P, B, n)
    ensures BoundedRows(Q, B, n)
  {
    forall k | 0 <= k < n ensures Bounded(Q, B[k]) {
      var M :| AtMost(P, [], B[k], M);
      AtMostSubset(P, Q, B[k], M);
    }
  }

  /** On a nonempty polytope a constant row has width zero. */
  lemma ConstantWidth(P: Poly, R: seq<Row>, b: Row, x: Point)
    requires x in P && ConstantOn(P, b)
    ensures IsWidth(P, R, b, 0.0)
  {
    assert Agree(R, x, x);
  }

  lemma DropConstantRows(P: Poly, R: seq<Row>, b: Row, F: real)
    requires forall k :: 0 <= k < |R| ==> ConstantOn(P, R[k])
    ensures IsWidth(P, R, b, F) <==> IsWidth(P, [], b, F)
  {
    forall x, y | x in P && y in P ensures Agree(R, x, y) && Agree([], x, y) { }
  }

  lemma NotConstant(P: Poly, b: Row, F: real)
    requires IsWidth(P, [], b, F) && F != 0.0
    ensures !ConstantOn(P, b)
  {
    WidthNonNegative(P, [], b, F);
    var x, y :| x in P && y in P && Agree([], x, y) && F <= Diff(b, x, y);
  }

  // ----- The constraint list -----------------------------------------------------------------------

  /** The rows on the stack are exactly B[z0..e]; those from row z on (or all, if z > e) sit at the
      end of the list, one place each, so their position is conOffset plus their number. */
  ghost predicate RowsStacked(con: seq<Con>, conOffset: nat, B: seq<Row>, z0: nat, z: nat, e: nat) {
    && z0 <= e <= |B| && z0 <= z
    && |con| == conOffset + (e - z0)
    && RowsOf(con) == B[z0..e]
    && forall p :: conOffset + (if z < e then z else e) - z0 <= p < |con| ==> con[p].RowEq?
  }

  ghost predicate Snapshots(stack: seq<nat>, conOffset: nat, neq: nat, from: nat) {
    neq <= |stack| && forall k :: from <= k < neq ==> stack[k] == conOffset + k
  }

  lemma PushRow(con: seq<Con>, conOffset: nat, B: seq<Row>, z0: nat, z: nat, e: nat)
    requires RowsStacked(con, conOffset, B, z0, z, e) && e < |B|
    ensures RowsStacked(con + [RowEq(B[e])], conOffset, B, z0, z, e + 1)
  {
    RowsOfRow(con, B[e]);
    assert B[z0..e] + [B[e]] == B[z0..e + 1];
  }

  lemma PopRow(con: seq<Con>, conOffset: nat, B: seq<Row>, z0: nat, z: nat, e: nat)
    requires RowsStacked(con, conOffset, B, z0, z, e) && z0 <= z < e
    ensures con[..|con| - 1] + [RowEq(B[e - 1])] == con
    ensures RowsStacked(con[..|con| - 1], conOffset, B, z0, z, e - 1)
  {
    var last := |con| - 1;
    assert con[last].RowEq?;
    var front := con[..last];
    assert con == front + [RowEq(con[last].r)];
    RowsOfRow(front, con[last].r);
    assert B[z0..e - 1] + [B[e - 1]] == B[z0..e];
    assert RowsOf(front) == RowsOf(con)[..e - 1 - z0];
  }

  /** The rows on the stack are not affected by changes to later rows. */
  lemma LaterRowsChanged(con: seq<Con>, conOffset: nat, B: seq<Row>, B': seq<Row>, z0: nat, z: nat, e: nat)
    requires RowsStacked(con, conOffset, B, z0, z, e)
    requires |B'| == |B| && B'[..e] == B[..e]
    ensures RowsStacked(con, conOffset, B', z0, z, e)
  {
    assert B'[z0..e] == B'[..e][z0..] == B[..e][z0..] == B[z0..e];
  }

  /** What `save_alpha` reads, together with the last multiplier, is a full set of multipliers:
      entries for rows from z on are read at the right place, the others belong to constant rows. */
  lemma SavedIsOptimal(con: seq<Con>, dim: nat, obj: Row, answer: Solution, conOffset: nat,
                       B: seq<Row>, z0: nat, z: nat, e: nat, saved: seq<real>)
    requires Symmetric(con) && Minimum(con, dim, obj, answer)
    requires RowsStacked(con, conOffset, B, z0, z, e)
    requires |saved| == e
    requires forall j :: z <= j < e ==> saved[j] == -answer.dual[conOffset + j - z0]
    requires forall k :: z0 <= k < z && k < e ==> ConstantOn(PolyOf(con, dim), B[k])
    ensures Optimal(PolyOf(con, dim), B[z0..e], saved[z0..], obj, -answer.opt)
  {
    MinimumIsOptimal(con, dim, obj, answer);
    var alpha := AlphasOf(con, answer.dual);
    var R := B[z0..e];
    forall k | 0 <= k < |R| ensures alpha[k] == saved[z0..][k] || ConstantOn(PolyOf(con, dim), R[k]) {
      if z0 + k >= z {
        AlphaAt(con, answer.dual, conOffset + (if z < e then z else e) - z0);
        assert answer.dual[conOffset + k] == -alpha[k];
      } else {
        assert R[k] == B[z0 + k];
      }
    }
    OptimalChange(PolyOf(con, dim), R, alpha, saved[z0..], obj, -answer.opt);
  }

  /** The solver has an answer for every bounded objective. */
  lemma Solvable(con: seq<Con>, dim: nat, obj: Row, x: Point)
    requires Symmetric(con) && x in PolyOf(con, dim) && Bounded(PolyOf(con, dim), obj)
    ensures Nonempty(con, dim) && BoundedBelow(con, dim, obj)
  {
    assert Agree(RowsOf(con), x, x);
    FeasibleIsAgreeing(con, dim, x, x);
    var M :| AtMost(PolyOf(con, dim), [], obj, M);
    forall u, v | Feasible(con, dim, u, v) ensures -M <= Diff(obj, u, v) {
      FeasibleIsAgreeing(con, dim, u, v);
      BoundMeans(PolyOf(con, dim), obj, M, u, v);
    }
    assert LowerBound(con, dim, obj, -M);
  }

  // ----- Progress -----------------------------------------------------------------------------------

  /** (4/3)^n */
  ghost function FourThirds(n: nat): real {
    if n == 0 then 1.0 else FourThirds(n - 1) * 4.0 / 3.0
  }

  /** At most 1 + log_{4/3}(first) swaps. */
  ghost predicate FewSwaps(first: real, swaps: nat) {
    swaps <= 1 || FourThirds(swaps - 1) <= first
  }

  /** What is left of the first width after some swaps, none of which made the row a zero row. */
  ghost predicate OnTrack(first: real, swaps: nat, width: real) {
    && FourThirds(swaps) * width <= first
    && (swaps > 0 ==> width >= 1.0)
  }

  lemma {:induction false} FourThirdsPositive(n: nat)
    ensures FourThirds(n) >= 1.0
  {
    if n > 0 {
      FourThirdsPositive(n - 1);
    }
  }

  /** A swap replaces the width by less than 3/4 of it. */
  lemma SwapProgress(first: real, swaps: nat, oldWidth: real, width: real)
    requires OnTrack(first, swaps, oldWidth) && 0.0 <= width && 4.0 * width < 3.0 * oldWidth
    ensures FourThirds(swaps + 1) * width <= first
    ensures FewSwaps(first, swaps + 1)
  {
    var q := FourThirds(swaps);
    FourThirdsPositive(swaps);
    Scaled(q, width, 0.75 * oldWidth);
    assert FourThirds(swaps + 1) * width == q * width * 4.0 / 3.0;
    if swaps > 0 {
      Scaled(q, 1.0, oldWidth);
    }
  }

  lemma Scaled(q: real, v: real, w: real)
    requires 0.0 <= q && v <= w
    ensures q * v <= q * w
  {
    assert q * (w - v) >= 0.0;
  }

  lemma TrackIsFew(first: real, swaps: nat, width: real)
    requires OnTrack(first, swaps, width)
    ensures FewSwaps(first, swaps)
  {
    if swaps > 1 {
      FourThirdsPositive(swaps - 1);
      Scaled(FourThirds(swaps), 1.0, width);
    }
  }
}
