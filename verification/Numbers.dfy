/** Plain arithmetic shared by the whole model: powers of two, integer laws. */
module Numbers {

  function Pow2(n: nat): (r: nat)
    ensures r > 0
  {
    if n == 0 then 1 else 2 * Pow2(n - 1)
  }

  lemma Pow2Zero()
    ensures Pow2(0) == 1
  {}

  lemma {:induction false} Pow2Add(a: nat, b: nat)
    ensures Pow2(a + b) == Pow2(a) * Pow2(b)
  {
    if a != 0 {
      Pow2Add(a - 1, b);
      MulAssociative(2, Pow2(a - 1), Pow2(b));
    }
  }

  lemma {:induction false} Pow2Monotonic(a: nat, b: nat)
    requires a <= b
    ensures Pow2(a) <= Pow2(b)
  {
    if a < b { Pow2Monotonic(a, b - 1); }
  }

  /** The number of significant bits. */
  function BitLen(n: nat): nat
  {
    if n == 0 then 0 else 1 + BitLen(n / 2)
  }

  lemma {:induction false} BitLenIs(n: nat, k: nat)
    requires k > 0 && Pow2(k - 1) <= n < Pow2(k)
    ensures BitLen(n) == k
  {
    if k == 1 {
      assert n == 1;
    } else {
      BitLenIs(n / 2, k - 1);
    }
  }

  lemma {:induction false} BitLenBounds(n: nat)
    ensures n < Pow2(BitLen(n)) && (n > 0 ==> Pow2(BitLen(n) - 1) <= n)
  {
    if n > 0 { BitLenBounds(n / 2); }
  }

  lemma DivNat(n: nat, d: nat)
    requires d > 0
    ensures n / d >= 0
  {
    if n / d < 0 { MulMono(d, n / d, -1); }
  }

  /** Bit `i` of `n`. */
  function Bit(n: nat, i: nat): (r: nat)
    ensures r < 2
  {
    n / Pow2(i) % 2
  }

  // ----- multiplication and Euclidean division -----

  lemma MulAssociative(x: int, y: int, z: int)
    ensures x * y * z == x * (y * z)
  {}

  lemma MulMono(a: nat, x: int, y: int)
    requires x <= y
    ensures a * x <= a * y
  {}

  lemma MulBelow(x: nat, y: nat, a: nat, b: nat)
    requires x <= a && y < b && a > 0
    ensures x * y < a * b
  {
    MulMono(y, x, a);
    MulMono(a, y + 1, b);
    Distribute(a, y, 1);
  }

  lemma Distribute(p: int, x: int, y: int)
    ensures p * (x + y) == p * x + p * y
  {}

  /** The quotient and the remainder are the only pair of their kind. */
  lemma DivModUnique(n: int, d: int, q: int, r: int)
    requires d > 0 && 0 <= r < d && n == q * d + r
    ensures n / d == q && n % d == r
  {
    var q', r' := n / d, n % d;
    assert n == q' * d + r';
    assert (q - q') * d == r' - r by { Distribute(d, q, -q'); }
    if q > q' { MulMono(d, 1, q - q'); } else if q < q' { MulMono(d, q - q', -1); }
  }

  lemma ModAddMultiple(n: int, k: int, d: int)
    requires d > 0
    ensures (n + k * d) % d == n % d
  {
    var q, r := n / d, n % d;
    assert n == q * d + r;
    assert n + k * d == (q + k) * d + r by { Distribute(d, q, k); }
    DivModUnique(n + k * d, d, q + k, r);
  }

  lemma DivDiv(n: nat, a: nat, b: nat)
    requires a > 0 && b > 0
    ensures a * b > 0 && n / a / b == n / (a * b)
  {
    var q, r := n / a, n % a;
    var q', r' := q / b, q % b;
    assert n == a * q + r && q == b * q' + r';
    assert a * b > 0;
    assert n == q' * (a * b) + (a * r' + r) by {
      Distribute(a, b * q', r');
      assert a * (b * q') == q' * (a * b);
    }
    assert 0 <= a * r' + r < a * b by { MulMono(a, r', b - 1); Distribute(a, b, -1); }
    DivModUnique(n, a * b, q', a * r' + r);
  }

  lemma DivExact(a: nat, b: nat)
    requires b > 0
    ensures a * b / b == a
  {
    DivModUnique(a * b, b, a, 0);
  }

  lemma ExactMultiple(n: int, d: nat, k: int)
    requires d > 0 && n == d * k
    ensures n % d == 0 && n / d == k
  {
    DivModUnique(n, d, k, 0);
  }

  lemma ExactQuotient(n: nat, d: nat)
    requires d > 0 && n % d == 0
    ensures n == d * (n / d)
  {}

  lemma DivLess(a: nat, b: nat, d: nat)
    requires d > 0 && a < b * d
    ensures a / d < b
  {
    var q := a / d;
    assert a == d * q + a % d;
    if q >= b { MulMono(d, b, q); }
  }

  // ----- products as terms -----
  // Proofs that combine several products hide Mul and use these laws, so that what is left is linear.

  function Mul(x: int, y: int): int { x * y }

  lemma MulIs(x: int, y: int)
    ensures Mul(x, y) == x * y
  {}

  lemma MulCommutes(x: int, y: int)
    ensures Mul(x, y) == Mul(y, x) && x * y == y * x
  {}

  lemma MulOne(x: int)
    ensures Mul(1, x) == x
  {}

  lemma MulDouble(x: int, y: int)
    ensures Mul(2 * x, y) == 2 * Mul(x, y)
  {
    MulAssociative(2, x, y);
  }

  lemma MulLess(x: int, y: int, z: int)
    ensures Mul(x - y, z) == Mul(x, z) - Mul(y, z)
  {}

  lemma MulNext(x: int, y: int)
    ensures Mul(x, y + 1) == Mul(x, y) + x
  {}

  lemma MulSum(x: int, y: int, z: int)
    ensures Mul(x, y + z) == Mul(x, y) + Mul(x, z)
  {}

  lemma MulAssoc(x: int, y: int, z: int)
    ensures Mul(Mul(x, y), z) == Mul(x, Mul(y, z))
  {}

  /** Products with a nonnegative factor are ordered like the other factor. */
  lemma MulOrder(x: nat, y: int, z: int)
    ensures y <= z ==> Mul(x, y) <= Mul(x, z)
    ensures y < z ==> Mul(x, y) + x <= Mul(x, z)
  {
    if y <= z { MulMono(x, y, z); }
    if y < z { MulMono(x, y + 1, z); }
  }

  lemma MulDivides(n: int, d: nat, k: int)
    requires d > 0 && n == Mul(d, k)
    ensures n % d == 0 && n / d == k
  {
    ExactMultiple(n, d, k);
  }

  lemma MulQuotient(n: int, d: nat)
    requires d > 0
    ensures n == Mul(d, n / d) + n % d
  {}
}
