/** Residues of a prime held by big number objects: the modular operations of include/math/big_num.h that the
    point formulas call are the field operations, and succeed with the room that the formulas give them. */
module FieldOps {
  import opened Common
  import opened Numbers
  import opened Digits
  import opened Shifts
  import opened Bits
  import opened BigNum
  import opened Divide
  import opened Modular
  import opened ModInverse
  import opened GcdBin
  import opened Field
  import opened Jacobian

  // ----- room -----

  /** A storage of `count` digits can hold the product of two residues of v, which has d digits, and its division. */
  predicate Spacious(count: nat, d: nat, v: nat) { 0 < d && 2 * d <= count && Mul(v, v) <= BP(count - 1) }

  /** EC_CURVE_CALC_BITS_DBL: twice the bits of the field and one digit. */
  function DoubleBits(m: nat): nat { W + 2 * m }

  /** That many bits are spacious. */
  lemma RoomOf(p: Bn, m: nat)
    requires p.Valid() && 0 < p.V() < Pow2(m)
    ensures Spacious((DoubleBits(m) + W - 1) / W, p.digits, p.V())
  {
    hide BP, Val, Pow2;
    p.Bounds();
    var d, count := p.digits, (DoubleBits(m) + W - 1) / W;
    BPIsPow2(d - 1);
    if W * (d - 1) >= m { Pow2Monotonic(m, W * (d - 1)); }
    CountBits(m, d, count);
    BPIsPow2(count - 1);
    Pow2Monotonic(2 * m, W * (count - 1));
    Pow2Mul(m, m);
    MulBelowSquare(p.V(), Pow2(m));
  }

  lemma CountBits(m: nat, d: nat, count: nat)
    requires d > 0 && W * (d - 1) < m && count == (DoubleBits(m) + W - 1) / W
    ensures 2 * d <= count && 2 * m <= W * (count - 1)
  {}

  lemma MulBelowSquare(v: nat, q: nat)
    requires v < q
    ensures Mul(v, v) <= Mul(q, q)
  {
    MulMono(v, v, q);
    MulMono(q, v, q);
  }

  // ----- residues in objects -----

  /** A residue of p in an object that can hold any residue. */
  ghost predicate Elem(x: Bn, p: Bn)
    reads x, x.num, p, p.num
  {
    x.Valid() && p.Valid() && x.V() < p.V() && p.digits <= x.count
  }

  /** ... and any product of two. */
  ghost predicate Wide(x: Bn, p: Bn)
    reads x, x.num, p, p.num
  {
    Elem(x, p) && Spacious(x.count, p.digits, p.V()) && p.count <= x.count
  }

  lemma ElemParts(x: Bn, p: Bn)
    requires Elem(x, p)
    ensures x.Valid() && p.Valid() && x.Shape() && p.Shape() && x.V() < p.V() && (x.IsZero() <==> x.V() == 0)
  {
    x.Bounds();
  }

  lemma WideElem(x: Bn, p: Bn)
    requires Wide(x, p)
    ensures Elem(x, p)
  {}

  /** A new object of `bits` bits with the value of src. */
  method Copied(src: Bn, bits: nat, p: Bn) returns (status: Status, x: Bn)
    requires Elem(src, p) && 0 < bits <= W * MAX_DIGITS
    requires Spacious((bits + W - 1) / W, p.digits, p.V()) && p.count <= (bits + W - 1) / W
    ensures status.Ok? && fresh(x) && fresh(x.num) && Wide(x, p) && Elem(x, p) && x.V() == src.V()
  {
    hide BP, Val, Spacious;
    SpaciousDigits((bits + W - 1) / W, p.digits, p.V());
    FewerDigits(src, p);
    x := new Bn();
    status := x.Init(bits);
    status := x.Assign(src);
  }

  lemma SpaciousDigits(count: nat, d: nat, v: nat)
    requires Spacious(count, d, v)
    ensures 0 < d && 2 * d <= count
  {}

  /** bn_assign between residues. */
  method Set(x: Bn, src: Bn, p: Bn) returns (status: Status)
    requires Elem(x, p) && Elem(src, p) && x.Apart(src) && x.Apart(p)
    modifies x, x.num
    ensures status.Ok? && Elem(x, p) && (old(Wide(x, p)) ==> Wide(x, p)) && x.V() == old(src.V())
  {
    hide BP, Val;
    FewerDigits(src, p);
    status := x.Assign(src);
  }

  /** bn_mod_sub. */
  method SubIn(x: Bn, y: Bn, p: Bn) returns (status: Status)
    requires Elem(x, p) && Elem(y, p) && x.Apart(y) && x.Apart(p)
    modifies x, x.num
    ensures status.Ok? && Elem(x, p) && (old(Wide(x, p)) ==> Wide(x, p)) && x.V() == FSub(old(x.V()), y.V(), p.V())
  {
    hide BP, Val;
    status := ModSub(x, y, p);
  }

  /** bn_mod_add. */
  method AddIn(x: Bn, y: Bn, p: Bn) returns (status: Status)
    requires Wide(x, p) && Elem(y, p) && (x == y || x.Apart(y)) && x.Apart(p)
    modifies x, x.num
    ensures status.Ok? && Elem(x, p) && Wide(x, p) && x.V() == FAdd(old(x.V()), old(y.V()), p.V())
  {
    hide BP, Val;
    ghost var u, v := x.V(), y.V();
    SumRoom(p, x.count, 2);
    status := ModAdd(x, y, p);
    EqMod(u + v, p.V());
  }

  /** A few residues add up within a spacious object. */
  lemma SumRoom(p: Bn, count: nat, k: nat)
    requires p.Valid() && Spacious(count, p.digits, p.V()) && k <= 3
    ensures k * p.V() < BP(count) && p.digits < count
  {
    hide Val, BP, Spacious;
    SpaciousDigits(count, p.digits, p.V());
    p.Bounds();
    BPStep(p.digits);
    BPMonotonic(p.digits + 1, count);
    FewTimes(k, p.V(), BP(p.digits));
  }

  lemma FewTimes(k: nat, v: nat, q: nat)
    requires k <= 3 && v < q
    ensures k * v < B * q
  {
    MulMono(v, k, 3);
  }

  /** bn_mod_mult, also of a residue by itself (bn_mod_square). */
  method MulIn(x: Bn, y: Bn, p: Bn) returns (status: Status)
    requires Wide(x, p) && Elem(y, p) && (x == y || x.Apart(y)) && x.Apart(p)
    modifies x, x.num
    ensures status.Ok? && Elem(x, p) && Wide(x, p) && x.V() == FMul(old(x.V()), old(y.V()), p.V())
  {
    hide BP, Val, Mul;
    ghost var u, v := x.V(), y.V();
    FewerDigits(x, p);
    FewerDigits(y, p);
    ProductRoom(u, v, p.V(), BP(x.count - 1));
    MulIs(u, v);
    status := ModMult(x, y, p);
    EqMod(Mul(u, v), p.V());
  }

  lemma ProductRoom(u: nat, v: nat, p: nat, q: nat)
    requires u < p && v < p && Mul(p, p) <= q
    ensures Mul(u, v) < q
  {
    MulMono(u, v, p);
    MulMono(p, u, p - 1);
  }

  /** bn_mult_digit by two or three: `bn_add(bn, bn)`, or the double of a copy added. */
  method MultDigit(x: Bn, n: Digit) returns (status: Status)
    requires x.Valid() && 2 <= n <= 3 && n * x.V() < BP(x.count)
    modifies x, x.num
    ensures status.Ok? && x.Valid() && x.V() == n * old(x.V()) && x.count == old(x.count)
  {
    hide BP, Val;
    x.Bounds();
    if x.IsZero() { return Ok; }
    var carry: Digit;
    ghost var v := x.V();
    if n == 2 {
      status, carry := x.Add(x);
    } else {
      var tmp := new Bn();
      tmp.AssignInit(x);
      status, carry := tmp.Add(tmp);
      tmp.Below();
      NoCarry(tmp.V(), BP(tmp.count), carry, 2 * v);
      DigitsFit(tmp, tmp.count);
      status, carry := x.Add(tmp);
    }
    x.Below();
    NoCarry(x.V(), BP(x.count), carry, n * v);
  }

  lemma NoCarry(v: nat, q: nat, carry: nat, sum: nat)
    requires v < q && carry <= 1 && v + q * carry == sum && sum < q
    ensures v == sum
  {}

  /** bn_mod_mult_digit by two or three. */
  method DigitIn(x: Bn, n: Digit, p: Bn) returns (status: Status)
    requires Wide(x, p) && x.Apart(p) && 2 <= n <= 3 && p.V() > 3
    modifies x, x.num
    ensures status.Ok? && Elem(x, p) && Wide(x, p) && x.V() == FMul(old(x.V()), n, p.V())
  {
    hide BP, Val, Mul;
    ghost var v := x.V();
    SumRoom(p, x.count, n);
    MulMono(n, v, p.V());
    MulIs(v, n);
    SmallProduct(p, n, x.count, n * v);
    status := MultDigit(x, n);
    DigitsFit(x, x.count - 1);
    status := Mod(x, p);
    EqMod(Mul(v, n), p.V());
  }

  /** ... and leave a digit free. */
  lemma SmallProduct(p: Bn, n: nat, count: nat, v: nat)
    requires p.Valid() && Spacious(count, p.digits, p.V()) && n <= 3 && p.V() > 3 && v < n * p.V()
    ensures v < BP(count - 1)
  {
    hide BP, Val;
    MulMono(p.V(), n, p.V());
    MulIs(p.V(), p.V());
  }

  /** bn_mod_inv of a nonzero residue. */
  method InvIn(x: Bn, p: Bn) returns (status: Status)
    requires Elem(x, p) && x.Apart(p) && Prime(p.V()) && p.V() > 3 && x.V() > 0 && 4 + p.digits <= MAX_DIGITS
    modifies x, x.num
    ensures status.Ok? && Elem(x, p) && (old(Wide(x, p)) ==> Wide(x, p)) && !Eq(old(x.V()), 0, p.V())
    ensures x.V() == Inv(old(x.V()), p.V())
  {
    hide BP, Val, Prime, Inverse;
    ghost var v := x.V();
    NonZero(v, p.V());
    InverseIsInv(v, p.V());
    DigitsFit(p, x.count);
    status := ModInvBin(x, p);
  }

  /** The number that bn_mod_inv_bin leaves is the inverse in the field. */
  lemma InverseIsInv(x: nat, p: nat)
    requires Prime(p) && p > 3 && 0 < x < p
    ensures OnlyTwos(x, p) && !Eq(x, 0, p) && Inverse(x, p) == Inv(x, p)
  {
    hide Prime, Divides, Inverse;
    NonZero(x, p);
    PrimeOdd(p);
    PrimeGcd(x, p);
    GcdOnlyTwos(x, p);
    OddModulus(x, p);
    OneOf(x, Inverse(x, p), p);
    InvUnique(x, Inverse(x, p), p);
  }

  lemma GcdOnlyTwos(x: nat, p: nat)
    requires x > 0 && Gcd(x, p) == 1
    ensures OnlyTwos(x, p)
  {
    hide Gcd, Divides;
    GcdIsGreatest(x, p);
    forall g: nat | g > 1 && g % 2 == 1 && Divides(g, x) ensures !Divides(g, p) { NotOne(g); }
  }

  lemma OneOf(x: nat, y: nat, p: nat)
    requires p > 1 && Inverts(y, x, p)
    ensures Eq(Mul(x, y), 1, p)
  {
    MulQuotient(y * x, p);
    var k := y * x / p;
    ExactMultiple(x * y - 1, p, k);
  }

  /** Halving by adding the odd modulus to an odd residue, as the doubling does. */
  method HalveIn(x: Bn, p: Bn) returns (status: Status)
    requires Wide(x, p) && x.Apart(p) && p.V() % 2 == 1
    modifies x, x.num
    ensures status.Ok? && Elem(x, p) && Wide(x, p) && x.V() == FHalf(old(x.V()), p.V())
  {
    hide BP, Val, Pow2;
    ghost var v := x.V();
    SumRoom(p, x.count, 2);
    Pow2One();
    status := Ok;
    x.Below();
    if x.IsOdd() {
      var carry: Digit;
      status, carry := x.Add(p);
      x.Below();
      NoCarry(x.V(), BP(x.count), carry, v + p.V());
    }
    x.Bounds();
    x.RShift(1);
    HalfIs(v, p.V());
  }

  lemma HalfIs(v: nat, p: nat)
    requires p % 2 == 1 && v < p
    ensures FHalf(v, p) == if v % 2 == 1 then (v + p) / 2 else v / 2
  {}

  // ----- powers -----

  /** bn_mod_exp_digit for exponents of four and more. */
  method ExpIn(x: Bn, exp: nat, p: Bn) returns (status: Status)
    requires Wide(x, p) && x.Apart(p) && p.V() > 3 && exp >= 4
    modifies x, x.num
    ensures status.Ok? && Elem(x, p) && Wide(x, p) && x.V() == Exp(old(x.V()), exp) % p.V()
  {
    hide BP, Val, Exp, Mul, Power, Spacious;
    ghost var b := x.V();
    FewerDigits(x, p);
    SpaciousDigits(x.count, p.digits, p.V());
    if x.count < p.count || x.digits * 2 > x.count { assert false; }
    if x.digits == 1 && (x.num[0] == 0 || x.num[0] == 1) {
      OneDigit(x);
      PowersOfBits(b, exp);
      SmallMod(b, p.V());
      return Ok;
    }
    var base := new Bn();
    base.AssignInit(x);
    status := x.AssignDigit(1);
    x.OneIff();
    ExpUnit(b, exp, p.V());
    var e := exp;
    while e != 0
      invariant Wide(x, p) && Wide(base, p) && status.Ok?
      invariant Power(x.V(), base.V(), e, b, exp, p.V())
    {
      PowerKept(x.V(), base.V(), e, b, exp, p.V());
      FMulIs(x.V(), base.V(), p.V());
      FMulIs(base.V(), base.V(), p.V());
      if e % 2 != 0 { status := MulIn(x, base, p); }
      status := MulIn(base, base, p);
      e := e / 2;
    }
    ExpDone(x.V(), base.V(), b, exp, p.V());
  }

  lemma FMulIs(u: nat, v: nat, p: nat)
    requires p > 0
    ensures FMul(u, v, p) == u * v % p
  {}

  lemma {:induction false} PowersOfBits(b: nat, e: nat)
    requires b <= 1 && e > 0
    ensures Exp(b, e) == b
  {
    if e > 1 { PowersOfBits(b, e - 1); }
  }
}
