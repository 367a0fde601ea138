/** The bit formula with which memory_pool aligns pointers. */
module PoolAlign {
  import opened Powers
  import opened BitOps

  /** Masking with 2^k - 1 takes the remainder by 2^k. */
  lemma {:induction false} MaskIsRemainder(x: nat, k: nat)
    ensures And(x, Pow2(k) - 1) == x % Pow2(k)
    decreases k
  {
    if k > 0 {
      var p := Pow2(k - 1);
      MaskIsRemainder(x / 2, k - 1);
      HalfRemainder(x, p);
      MaskStep(x, p);
    }
  }

  lemma {:induction false} MaskStep(x: nat, p: nat)
    requires p > 0
    ensures And(x, 2 * p - 1) == 2 * And(x / 2, p - 1) + x % 2
  {
    assert (2 * p - 1) / 2 == p - 1 && (2 * p - 1) % 2 == 1;
  }

  /** `align`, for an alignment of 2^k bytes. */
  function Align(ptr: nat, k: nat): nat {
    var alignment := Pow2(k);
    ptr + And(alignment - And(ptr, alignment - 1), alignment - 1)
  }

  lemma {:induction false} AlignValue(ptr: nat, k: nat)
    ensures var p := Pow2(k);
            Align(ptr, k) == if ptr % p == 0 then ptr else ptr + (p - ptr % p)
  {
    var p, r := Pow2(k), ptr % Pow2(k);
    MaskIsRemainder(ptr, k);
    MaskIsRemainder(p - r, k);
    if r == 0 {
      Remainder(p, p, 1, 0);
    } else {
      Remainder(p - r, p, 0, p - r);
    }
  }

  /** The next multiple of p. */
  lemma {:induction false} NextMultiple(x: nat, p: nat, m: nat)
    requires p > 0 && x % p > 0
    ensures (x + (p - x % p)) % p == 0
    ensures m % p == 0 && m >= x ==> m >= x + (p - x % p)
  {
    var q, next := x / p, x + (p - x % p);
    assert (q + 1) * p == q * p + p;
    Remainder(next, p, q + 1, 0);
    if m % p == 0 && m >= x {
      var c := m / p;
      assert m == c * p;
      if c <= q {
        Monotone(c, q, p);
      } else {
        Monotone(q + 1, c, p);
      }
    }
  }

  lemma {:induction false} Monotone(a: nat, b: nat, p: nat)
    requires a <= b
    ensures a * p <= b * p
  {
    if a < b {
      MultiplesApart(a, b, p);
    }
  }

  /** The result is the least multiple of the alignment that is not below the pointer. */
  lemma {:induction false} AlignIsLeast(ptr: nat, k: nat)
    ensures Align(ptr, k) % Pow2(k) == 0 && ptr <= Align(ptr, k) < ptr + Pow2(k)
    ensures forall m: nat :: m % Pow2(k) == 0 && m >= ptr ==> m >= Align(ptr, k)
  {
    hide Align, And;
    AlignValue(ptr, k);
    if ptr % Pow2(k) > 0 {
      forall m: nat | m % Pow2(k) == 0 && m >= ptr ensures m >= Align(ptr, k) {
        NextMultiple(ptr, Pow2(k), m);
      }
      NextMultiple(ptr, Pow2(k), 0);
    }
  }
}
