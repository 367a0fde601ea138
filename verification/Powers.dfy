/** Powers of two, and remainders by them. */
module Powers {

  function Pow2(k: nat): (p: nat)
    ensures p > 0
  {
    if k == 0 then 1 else 2 * Pow2(k - 1)
  }

  /** Different multiples of p are at least p apart. */
  lemma {:induction false} MultiplesApart(a: nat, b: nat, p: nat)
    requires a < b
    ensures a * p + p <= b * p
  {
    assert b * p == a * p + (b - a) * p;
    assert (b - a) * p == (b - a - 1) * p + p;
  }

  /** The quotient and the remainder are unique. */
  lemma {:induction false} Remainder(x: nat, p: nat, q: nat, r: nat)
    requires r < p && x == q * p + r
    ensures x % p == r && x / p == q
  {
    if x / p > q {
      MultiplesApart(q, x / p, p);
    } else if q > x / p {
      MultiplesApart(x / p, q, p);
    }
  }

  lemma {:induction false} HalfRemainder(x: nat, p: nat)
    requires p > 0
    ensures x % (2 * p) == 2 * (x / 2 % p) + x % 2
  {
    var q, r := x / 2 / p, x / 2 % p;
    assert x / 2 == q * p + r;
    assert 2 * (q * p + r) == q * (2 * p) + 2 * r;
    Remainder(x, 2 * p, q, 2 * r + x % 2);
  }
}
