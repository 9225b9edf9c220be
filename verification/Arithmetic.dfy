/** Facts about products, remainders and powers of two. */
module Arithmetic {
  lemma {:induction false} ModAdd(i: nat, r: nat, n: nat)
    requires n > 0
    ensures (i % n + r) % n == (i + r) % n
  {
    var q := i / n;
    assert i == q * n + i % n;
    ModShift(i % n + r, q, n);
  }

  lemma {:induction false} ModShift(a: nat, q: nat, n: nat)
    requires n > 0
    ensures (a + q * n) % n == a % n
    decreases q
  {
    if q > 0 {
      ModShift(a, q - 1, n);
      assert a + q * n == a + (q - 1) * n + n;
      ModOnce(a + (q - 1) * n, n);
    }
  }

  lemma {:induction false} ModOnce(a: nat, n: nat)
    requires n > 0
    ensures (a + n) % n == a % n
  {
    var q := a / n;
    assert a + n == (q + 1) * n + a % n;
    DivUnique(a + n, n, q + 1, a % n);
  }

  lemma {:induction false} DivUnique(a: nat, n: nat, q: nat, r: nat)
    requires a == q * n + r && r < n
    ensures a / n == q && a % n == r
  {
    var x := a / n;
    if x < q { MulMono(x + 1, q, n); }
    if x > q { MulMono(q + 1, x, n); }
  }

  lemma {:induction false} MulMono(a: nat, b: nat, n: nat)
    requires a <= b
    ensures a * n <= b * n
  {
  }

  lemma {:induction false} ModSmall(a: nat, n: nat)
    requires a < n
    ensures a % n == a
  {
    DivUnique(a, n, 0, a);
  }

  function Pow2(n: nat): (r: nat)
    ensures r > 0
  {
    if n == 0 then 1 else 2 * Pow2(n - 1)
  }

  lemma {:induction false} PowSum(a: nat, b: nat)
    ensures Pow2(a + b) == Pow2(a) * Pow2(b)
  {
    if a > 0 {
      PowSum(a - 1, b);
      assert 2 * (Pow2(a - 1) * Pow2(b)) == (2 * Pow2(a - 1)) * Pow2(b);
    }
  }
}
