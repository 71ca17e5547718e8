/** The few facts about products and quotients of variables that the proofs need. */
module Arith {
  lemma MulMono(a: nat, b: nat, k: nat)
    requires a <= b
    ensures a * k <= b * k
  {
  }

  /** Row-major positions determine their row and column. */
  lemma QuotientUnique(q: nat, r: nat, q': nat, r': nat, k: nat)
    requires r < k && r' < k && q * k + r == q' * k + r'
    ensures q == q' && r == r'
  {
    assert (q + 1) * k == q * k + k && (q' + 1) * k == q' * k + k;
    if q < q' { MulMono(q + 1, q', k); }
    if q' < q { MulMono(q' + 1, q, k); }
  }

  lemma DivIs(a: nat, k: nat, q: nat, r: nat)
    requires r < k && a == q * k + r
    ensures a / k == q && a % k == r
  {
    QuotientUnique(a / k, a % k, q, r, k);
  }

  lemma Divided(x: nat, k: nat)
    requires k > 0
    ensures x == x / k * k + x % k && x % k < k
  {
  }

  lemma EvenQuotient(x: nat, k: nat, q: nat, h: nat, r: nat)
    requires r < k && x == q * k + r && q == 2 * h
    ensures x % (2 * k) == r
  {
    assert q * k == h * (2 * k);
    DivIs(x, 2 * k, h, r);
  }

  lemma OddQuotient(x: nat, k: nat, q: nat, h: nat, r: nat)
    requires r < k && x == q * k + r && q == 2 * h + 1
    ensures x % (2 * k) == k + r
  {
    assert q * k == h * (2 * k) + k;
    DivIs(x, 2 * k, h, k + r);
  }

  /** The bit of weight k, seen from the number below it and itself. */
  lemma BitOf(x: nat, k: nat)
    requires k > 0
    ensures x / k % 2 == 1 <==> x % (2 * k) >= k
  {
    var q, r := x / k, x % k;
    Divided(x, k);
    if q % 2 == 0 {
      EvenQuotient(x, k, q, q / 2, r);
    } else {
      OddQuotient(x, k, q, q / 2, r);
    }
  }
}
