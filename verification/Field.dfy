/** Congruences modulo a prime, and the field they make. Products are Mul terms. */
module Field {
  import opened Numbers
  import opened Bits
  import opened ModInverse
  import opened GcdBin

  ghost predicate Prime(p: nat)
  {
    p > 1 && forall d: nat :: 1 < d < p ==> !Divides(d, p)
  }

  predicate Eq(x: int, y: int, p: nat)
    requires p > 0
  {
    Divides(p, x - y)
  }

  lemma EqSame(x: int, p: nat)
    requires p > 0
    ensures Eq(x, x, p)
  {
    ModZero(p);
  }

  lemma ModZero(p: nat)
    requires p > 0
    ensures 0 % p == 0
  {}

  lemma EqSym(x: int, y: int, p: nat)
    requires p > 0 && Eq(x, y, p)
    ensures Eq(y, x, p)
  {
    hide Divides;
    EqSame(0, p);
    DividesSum(p, 0, x - y);
  }

  lemma EqTrans(x: int, y: int, z: int, p: nat)
    requires p > 0 && Eq(x, y, p) && Eq(y, z, p)
    ensures Eq(x, z, p)
  {
    hide Divides;
    DividesSum(p, x - y, y - z);
  }

  lemma EqAdd(x: int, u: int, y: int, v: int, p: nat)
    requires p > 0 && Eq(x, u, p) && Eq(y, v, p)
    ensures Eq(x + y, u + v, p) && Eq(x - y, u - v, p)
  {
    hide Divides;
    DividesSum(p, x - u, y - v);
  }

  lemma EqMul(x: int, u: int, y: int, v: int, p: nat)
    requires p > 0 && Eq(x, u, p) && Eq(y, v, p)
    ensures Eq(Mul(x, y), Mul(u, v), p)
  {
    hide Divides;
    DividesMultiple(p, x - u, y);
    DividesMultiple(p, y - v, u);
    DividesSum(p, y * (x - u), u * (y - v));
    MulDifference(x, u, y, v);
  }

  lemma MulDifference(x: int, u: int, y: int, v: int)
    ensures y * (x - u) + u * (y - v) == Mul(x, y) - Mul(u, v)
  {
    Distribute(y, x, -u);
    Distribute(u, y, -v);
  }

  lemma EqMod(x: int, p: nat)
    requires p > 0
    ensures Eq(x % p, x, p)
  {
    MulQuotient(x, p);
    var k := -(x / p);
    assert x % p - x == p * k;
    ExactMultiple(x % p - x, p, k);
  }

  lemma EqUnique(x: int, y: int, p: nat)
    requires 0 <= x < p && 0 <= y < p && Eq(x, y, p)
    ensures x == y
  {
    if x >= y { DivModUnique(x - y, p, 0, x - y); } else { DivModUnique(x - y, p, -1, x - y + p); }
  }

  // ----- inverses -----

  lemma {:induction false} Bezout(a: nat, b: nat) returns (i: int, j: int)
    ensures Mul(i, a) + Mul(j, b) == Gcd(a, b)
    decreases b
  {
    if b == 0 {
      i, j := 1, 0;
    } else {
      var i', j' := Bezout(b, a % b);
      i, j := j', i' - j' * (a / b);
      BezoutStep(a, b, a / b, a % b, i', j');
    }
  }

  lemma BezoutStep(a: int, b: int, q: int, r: int, i: int, j: int)
    requires a == b * q + r
    ensures Mul(j, a) + Mul(i - j * q, b) == Mul(i, b) + Mul(j, r)
  {
    assert r == a - b * q;
    assert j * (a - b * q) == j * a - (j * q) * b;
    assert (i - j * q) * b == i * b - (j * q) * b;
  }

  lemma PrimeGcd(x: nat, p: nat)
    requires Prime(p) && 0 < x < p
    ensures Gcd(x, p) == 1
  {
    hide Gcd;
    GcdIsGreatest(x, p);
    GcdBelow(x, p);
  }

  lemma InverseExists(x: int, p: nat)
    requires Prime(p) && !Eq(x, 0, p)
    ensures exists y: nat :: y < p && Eq(Mul(x, y), 1, p)
  {
    hide Gcd, Mul, Divides, Eq;
    var r: nat := x % p;
    EqMod(x, p);
    NonZeroMod(x, p);
    PrimeGcd(r, p);
    var i, j := Bezout(r, p);
    var y: nat := i % p;
    EqMod(i, p);
    EqSym(r, x, p);
    EqMul(x, r, y, i, p);
    MultipleEq(j, p);
    EqSame(1, p);
    EqAdd(1, 1, Mul(j, p), 0, p);
    MulCommutes(i, r);
    EqTrans(Mul(x, y), Mul(r, i), 1, p);
  }

  lemma NonZeroMod(x: int, p: nat)
    requires p > 0 && !Eq(x, 0, p)
    ensures 0 < x % p < p
  {}

  lemma MultipleEq(j: int, p: nat)
    requires p > 0
    ensures Eq(Mul(j, p), 0, p)
  {
    ExactMultiple(Mul(j, p), p, j);
  }

  /** The inverse modulo p, which is what bn_mod_inv_bin returns. */
  ghost function Inv(x: int, p: nat): (y: nat)
    requires Prime(p) && !Eq(x, 0, p)
    ensures y < p && Eq(Mul(x, y), 1, p)
  {
    InverseExists(x, p);
    var y: nat :| y < p && Eq(Mul(x, y), 1, p);
    y
  }

  /** A nonzero factor can be cancelled. */
  lemma Cancel(c: int, x: int, y: int, p: nat)
    requires Prime(p) && !Eq(c, 0, p) && Eq(Mul(c, x), Mul(c, y), p)
    ensures Eq(x, y, p)
  {
    hide Mul, Prime, Eq;
    var i := Inv(c, p);
    EqSame(i, p);
    EqMul(i, i, Mul(c, x), Mul(c, y), p);
    InverseTimes(i, c, x, p);
    InverseTimes(i, c, y, p);
    EqSym(Mul(i, Mul(c, x)), x, p);
    EqTrans(x, Mul(i, Mul(c, x)), Mul(i, Mul(c, y)), p);
    EqTrans(x, Mul(i, Mul(c, y)), y, p);
  }

  lemma InverseTimes(i: int, c: int, x: int, p: nat)
    requires p > 0 && Eq(Mul(c, i), 1, p)
    ensures Eq(Mul(i, Mul(c, x)), x, p)
  {
    hide Eq;
    EqSame(x, p);
    EqMul(Mul(c, i), 1, x, x, p);
    assert Mul(Mul(c, i), x) == Mul(i, Mul(c, x)) && Mul(1, x) == x;
  }

  lemma NonZeroProduct(x: int, y: int, p: nat)
    requires Prime(p) && !Eq(x, 0, p) && !Eq(y, 0, p)
    ensures !Eq(Mul(x, y), 0, p)
  {
    hide Mul, Divides;
    if Eq(Mul(x, y), 0, p) {
      MulZero(x);
      Cancel(x, y, 0, p);
    }
  }

  // ----- reduced values -----

  function FMul(x: nat, y: nat, p: nat): (r: nat)
    requires p > 0
    ensures r < p && Eq(r, Mul(x, y), p)
  {
    EqMod(Mul(x, y), p);
    Mul(x, y) % p
  }

  function FAdd(x: nat, y: nat, p: nat): (r: nat)
    requires p > 0
    ensures r < p && Eq(r, x + y, p)
  {
    EqMod(x + y, p);
    (x + y) % p
  }

  function FSub(x: nat, y: nat, p: nat): (r: nat)
    requires p > 0
    ensures r < p && Eq(r, x - y, p)
  {
    EqMod(x - y, p);
    (x - y) % p
  }

  /** Adding an odd modulus to an odd number before halving it. */
  function FHalf(x: nat, p: nat): (r: nat)
    requires p % 2 == 1 && x < p
    ensures r < p && Eq(2 * r, x, p)
  {
    EqSame(x, p);
    EqMod(x + p, p);
    if x % 2 == 1 then
      PlusModulus(x, p);
      (x + p) / 2
    else x / 2
  }

  lemma PlusModulus(x: int, p: nat)
    requires p > 0
    ensures Eq(x + p, x, p)
  {
    ExactMultiple(p, p, 1);
  }
}
