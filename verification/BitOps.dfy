/** The bit operators of C on unsigned numbers. */
module BitOps {
  import opened Powers

  /** x & y */
  function And(x: nat, y: nat): (r: nat)
    ensures r <= x && r <= y
    decreases x + y
  {
    if x == 0 || y == 0 then 0 else 2 * And(x / 2, y / 2) + if x % 2 == 1 && y % 2 == 1 then 1 else 0
  }

  /** x | y */
  function Or(x: nat, y: nat): (r: nat)
    decreases x + y
  {
    if x == 0 then y else if y == 0 then x
    else 2 * Or(x / 2, y / 2) + if x % 2 == 1 || y % 2 == 1 then 1 else 0
  }

  /** Setting bits above the number adds them. */
  lemma {:induction false} OrAdds(x: nat, y: nat, k: nat)
    requires x < Pow2(k) && y % Pow2(k) == 0
    ensures Or(x, y) == x + y
    decreases k
  {
    if k > 0 && x > 0 && y > 0 {
      HalfRemainder(y, Pow2(k - 1));
      OrAdds(x / 2, y / 2, k - 1);
    }
  }

  /** The lowest bit of (x | bits) & mask, and the rest. */
  lemma {:induction false} MaskedStep(x: nat, bits: nat, mask: nat)
    ensures And(Or(x, bits), mask)
         == 2 * And(Or(x / 2, bits / 2), mask / 2) + if (x % 2 == 1 || bits % 2 == 1) && mask % 2 == 1 then 1 else 0
  {
    OrStep(x, bits);
    AndStep(Or(x, bits), mask);
  }

  lemma {:induction false} OrStep(x: nat, y: nat)
    ensures Or(x, y) / 2 == Or(x / 2, y / 2)
    ensures Or(x, y) % 2 == if x % 2 == 1 || y % 2 == 1 then 1 else 0
  {
  }

  lemma {:induction false} AndStep(x: nat, y: nat)
    ensures And(x, y) == 2 * And(x / 2, y / 2) + if x % 2 == 1 && y % 2 == 1 then 1 else 0
  {
  }
}
