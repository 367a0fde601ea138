/** The two elementary changes the basis reduction makes to its basis, and what they preserve:
    they can be undone, and they do not change the integer lattice the rows span. */
module Lattice {
  import opened Vectors

  datatype Op =
    | Shear(target: nat, source: nat, t: int)   // row[target] += t * row[source]; isl_seq_combine
    | Swap(k: nat)                              // rows k and k + 1; isl_mat_swap_rows
  {
    /** The operation changes only rows lo..hi of an n-column matrix. */
    predicate Within(lo: nat, hi: nat) {
      match this
      case Shear(target, source, _) => lo <= target < hi && lo <= source < hi && target != source
      case Swap(k) => lo <= k && k + 1 < hi
    }

    function Inverse(): Op {
      match this
      case Shear(target, source, t) => Shear(target, source, -t)
      case Swap(k) => this
    }
  }

  predicate Rectangular(B: seq<Row>, n: nat) {
    forall k :: 0 <= k < |B| ==> |B[k]| == n
  }

  function Apply(op: Op, B: seq<Row>, n: nat): (B': seq<Row>)
    requires Rectangular(B, n) && op.Within(0, |B|)
    ensures |B'| == |B| && Rectangular(B', n)
  {
    match op
    case Shear(target, source, t) => B[target := Combine(B[target], t, B[source])]
    case Swap(k) => B[k := B[k + 1]][k + 1 := B[k]]
  }

  ghost predicate AllWithin(ops: seq<Op>, lo: nat, hi: nat) {
    forall k :: 0 <= k < |ops| ==> ops[k].Within(lo, hi)
  }

  /** The operations in order, first to last. */
  ghost function ApplyAll(ops: seq<Op>, B: seq<Row>, n: nat): (B': seq<Row>)
    requires Rectangular(B, n) && AllWithin(ops, 0, |B|)
    ensures |B'| == |B| && Rectangular(B', n)
  {
    if ops == [] then B
    else Apply(ops[|ops| - 1], ApplyAll(ops[..|ops| - 1], B, n), n)
  }

  lemma ApplySnoc(ops: seq<Op>, op: Op, B: seq<Row>, n: nat)
    requires Rectangular(B, n) && AllWithin(ops, 0, |B|) && op.Within(0, |B|)
    ensures AllWithin(ops + [op], 0, |B|)
    ensures ApplyAll(ops + [op], B, n) == Apply(op, ApplyAll(ops, B, n), n)
  {
    assert (ops + [op])[..|ops|] == ops;
  }

  // ----- Rows outside the range are untouched ----------------------------------------------------

  lemma {:induction false} RowsOutsideKept(ops: seq<Op>, B: seq<Row>, n: nat, lo: nat, hi: nat)
    requires Rectangular(B, n) && lo <= hi <= |B| && AllWithin(ops, lo, hi)
    ensures AllWithin(ops, 0, |B|)
    ensures ApplyAll(ops, B, n)[..lo] == B[..lo]
    ensures ApplyAll(ops, B, n)[hi..] == B[hi..]
  {
    if ops == [] {
    } else {
      RowsOutsideKept(ops[..|ops| - 1], B, n, lo, hi);
    }
  }

  // ----- Every run can be undone ---------------------------------------------------------------

  ghost function InverseAll(ops: seq<Op>): (inv: seq<Op>)
    ensures |inv| == |ops|
    ensures forall k :: 0 <= k < |ops| ==> inv[k] == ops[|ops| - 1 - k].Inverse()
  {
    seq(|ops|, k requires 0 <= k < |ops| => ops[|ops| - 1 - k].Inverse())
  }

  lemma UndoOne(op: Op, B: seq<Row>, n: nat)
    requires Rectangular(B, n) && op.Within(0, |B|)
    ensures op.Inverse().Within(0, |B|)
    ensures Apply(op.Inverse(), Apply(op, B, n), n) == B
  {
    if op.Shear? {
      var b, c := B[op.target], B[op.source];
      forall k | 0 <= k < n ensures b[k] + op.t * c[k] + -op.t * c[k] == b[k] { }
      assert Combine(Combine(b, op.t, c), -op.t, c) == b;
    }
  }

  /** Running the inverse operations in reverse order restores the original basis exactly. */
  lemma {:induction false} Undo(ops: seq<Op>, B: seq<Row>, n: nat)
    requires Rectangular(B, n) && AllWithin(ops, 0, |B|)
    ensures AllWithin(InverseAll(ops), 0, |B|)
    ensures ApplyAll(InverseAll(ops), ApplyAll(ops, B, n), n) == B
  {
    if ops == [] {
    } else {
      var last := |ops| - 1;
      var front, op := ops[..last], ops[last];
      var C := ApplyAll(front, B, n);
      UndoOne(op, C, n);
      Undo(front, B, n);
      InverseSnoc(front, op);
      assert ops == front + [op];
      ApplyCons(op.Inverse(), InverseAll(front), ApplyAll(ops, B, n), n);
    }
  }

  lemma InverseSnoc(ops: seq<Op>, op: Op)
    ensures InverseAll(ops + [op]) == [op.Inverse()] + InverseAll(ops)
  {
  }

  lemma {:induction false} ApplyCons(op: Op, ops: seq<Op>, B: seq<Row>, n: nat)
    requires Rectangular(B, n) && op.Within(0, |B|) && AllWithin(ops, 0, |B|)
    ensures AllWithin([op] + ops, 0, |B|)
    ensures ApplyAll([op] + ops, B, n) == ApplyAll(ops, Apply(op, B, n), n)
  {
    hide Apply;
    var all := [op] + ops;
    if ops == [] {
      assert all[..0] == [];
    } else {
      var last := |ops| - 1;
      ApplyCons(op, ops[..last], B, n);
      assert all[..|all| - 1] == [op] + ops[..last];
    }
  }

  // ----- The lattice is unchanged ----------------------------------------------------------------

  /** t times row k. */
  datatype Term = Term(t: int, k: nat)

  /** The finite sum of the terms. */
  ghost function SumOf(terms: seq<Term>, B: seq<Row>, n: nat): (v: Row)
    requires Rectangular(B, n)
    requires forall m :: 0 <= m < |terms| ==> terms[m].k < |B|
    ensures |v| == n
  {
    if terms == [] then seq(n, _ => 0)
    else
      var last := terms[|terms| - 1];
      Combine(SumOf(terms[..|terms| - 1], B, n), last.t, B[last.k])
  }

  /** v lies in the lattice of integer combinations of the rows of B. */
  ghost predicate InLattice(v: Row, B: seq<Row>, n: nat)
    requires Rectangular(B, n)
  {
    exists terms: seq<Term> ::
      (forall m :: 0 <= m < |terms| ==> terms[m].k < |B|) && SumOf(terms, B, n) == v
  }

  lemma AddTerm(terms: seq<Term>, term: Term, B: seq<Row>, n: nat)
    requires Rectangular(B, n) && term.k < |B|
    requires forall m :: 0 <= m < |terms| ==> terms[m].k < |B|
    ensures forall m :: 0 <= m < |terms + [term]| ==> (terms + [term])[m].k < |B|
    ensures SumOf(terms + [term], B, n) == Combine(SumOf(terms, B, n), term.t, B[term.k])
  {
    assert (terms + [term])[..|terms|] == terms;
  }

  lemma CombineSheared(v: Row, t: int, b: Row, s: int, c: Row)
    requires |v| == |b| == |c|
    ensures Combine(v, t, Combine(b, s, c)) == Combine(Combine(v, t, b), t * s, c)
  {
    forall k | 0 <= k < |v| ensures v[k] + t * (b[k] + s * c[k]) == v[k] + t * b[k] + t * s * c[k] {
      SpreadProduct(v[k], t, b[k], s, c[k]);
    }
  }

  lemma SpreadProduct(v: int, t: int, b: int, s: int, c: int)
    ensures v + t * (b + s * c) == v + t * b + t * s * c
  {
  }

  /** A sum of rows of the changed basis is a sum of rows of the original one. */
  lemma {:induction false} OpKeepsLattice(op: Op, terms: seq<Term>, B: seq<Row>, n: nat) returns (before: seq<Term>)
    requires Rectangular(B, n) && op.Within(0, |B|)
    requires forall m :: 0 <= m < |terms| ==> terms[m].k < |B|
    ensures forall m :: 0 <= m < |before| ==> before[m].k < |B|
    ensures SumOf(before, B, n) == SumOf(terms, Apply(op, B, n), n)
  {
    if terms == [] {
      before := [];
    } else {
      var last := terms[|terms| - 1];
      var front := OpKeepsLattice(op, terms[..|terms| - 1], B, n);
      match op
      case Shear(target, source, s) =>
        before := front + [last];
        AddTerm(front, last, B, n);
        if last.k == target {
          CombineSheared(SumOf(front, B, n), last.t, B[target], s, B[source]);
          AddTerm(before, Term(last.t * s, source), B, n);
          before := before + [Term(last.t * s, source)];
        }
      case Swap(k) =>
        var term := Term(last.t, if last.k == k then k + 1 else if last.k == k + 1 then k else last.k);
        before := front + [term];
        AddTerm(front, term, B, n);
    }
  }

  lemma {:induction false} LatticeShrinks(ops: seq<Op>, v: Row, B: seq<Row>, n: nat)
    requires Rectangular(B, n) && AllWithin(ops, 0, |B|)
    requires InLattice(v, ApplyAll(ops, B, n), n)
    ensures InLattice(v, B, n)
  {
    if ops == [] {
    } else {
      var last := |ops| - 1;
      var C := ApplyAll(ops[..last], B, n);
      var terms: seq<Term> :| (forall m :: 0 <= m < |terms| ==> terms[m].k < |B|)
                && SumOf(terms, ApplyAll(ops, B, n), n) == v;
      var moved := OpKeepsLattice(ops[last], terms, C, n);
      LatticeShrinks(ops[..last], v, B, n);
    }
  }

  /** The rows span the same lattice before and after; in particular a basis of Z^n stays one. */
  lemma LatticeKept(ops: seq<Op>, v: Row, B: seq<Row>, n: nat)
    requires Rectangular(B, n) && AllWithin(ops, 0, |B|)
    ensures InLattice(v, ApplyAll(ops, B, n), n) <==> InLattice(v, B, n)
  {
    Undo(ops, B, n);
    if InLattice(v, B, n) {
      LatticeShrinks(InverseAll(ops), v, ApplyAll(ops, B, n), n);
    }
    if InLattice(v, ApplyAll(ops, B, n), n) {
      LatticeShrinks(ops, v, B, n);
    }
  }
}
