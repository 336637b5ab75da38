/** Modular arithmetic of include/math/big_num.h with the default reduction by bn_div. */
module Modular {
  import opened Common
  import opened Numbers
  import opened Digits
  import opened Shifts
  import opened Bits
  import opened BigNum
  import opened Multiply
  import opened Divide

  function Exp(b: nat, e: nat): nat
  {
    if e == 0 then 1 else b * Exp(b, e - 1)
  }

  // ----- congruences -----

  lemma ModTimes(a: nat, b: nat, m: nat)
    requires m > 0
    ensures (a % m) * b % m == a * b % m
  {
    var q, r := a / m, a % m;
    assert a == m * q + r;
    assert a * b == r * b + (q * b) * m by {
      Distribute(b, m * q, r);
      assert b * (m * q) == (q * b) * m;
    }
    ModAddMultiple(r * b, q * b, m);
  }

  lemma ModProduct(a: nat, b: nat, m: nat)
    requires m > 0
    ensures (a % m) * (b % m) % m == a * b % m
  {
    ModTimes(a, b % m, m);
    ModTimes(b, a, m);
    assert a * (b % m) == (b % m) * a && a * b == b * a;
  }

  lemma {:induction false} ModPower(b: nat, e: nat, m: nat)
    requires m > 0
    ensures Exp(b % m, e) % m == Exp(b, e) % m
  {
    if e > 0 {
      ModPower(b, e - 1, m);
      ModProduct(b % m, Exp(b % m, e - 1), m);
      ModProduct(b, Exp(b, e - 1), m);
      ModIdempotent(b, m);
    }
  }

  lemma ModIdempotent(b: nat, m: nat)
    requires m > 0
    ensures b % m % m == b % m
  {}

  lemma {:induction false} ExpSquare(b: nat, k: nat)
    ensures Exp(b * b, k) == Exp(b, 2 * k)
  {
    if k > 0 {
      ExpSquare(b, k - 1);
      MulAssociative(b, b, Exp(b, 2 * k - 2));
      assert Exp(b, 2 * k) == b * Exp(b, 2 * k - 1);
      assert Exp(b, 2 * k - 1) == b * Exp(b, 2 * k - 2);
    }
  }

  /** One bit of square-and-multiply keeps accumulator * base^(remaining exponent). */
  lemma PowerStep(acc: nat, base: nat, k: nat, m: nat)
    requires m > 0
    ensures acc * Exp(base * base % m, k / 2) % m == acc * Exp(base, k - k % 2) % m
    ensures (acc * base % m) * Exp(base * base % m, k / 2) % m == acc * Exp(base, 1 + (k - k % 2)) % m
  {
    hide Exp;
    var h := k / 2;
    var e := Exp(base, 2 * h);
    ExpSquare(base, h);
    ModPower(base * base, h, m);
    var f := Exp(base * base % m, h);
    ModProduct(acc, f, m);
    ModProduct(acc, e, m);
    ModTimes(acc * base, f, m);
    ModProduct(acc * base, f, m);
    ModProduct(acc * base, e, m);
    MulAssociative(acc, base, e);
    ExpNext(base, 2 * h);
    assert k - k % 2 == 2 * h;
  }

  lemma ExpNext(b: nat, e: nat)
    ensures Exp(b, 1 + e) == b * Exp(b, e) && Exp(b, 0) == 1
  {}

  // ----- operations -----

  /** bn_mod. */
  method Mod(bn: Bn, m: Bn) returns (status: Status)
    requires bn.Valid() && m.Valid() && bn.Apart(m)
    modifies bn, bn.num
    ensures bn.count == old(bn.count) && bn.Shape()
    ensures m.V() > 0 && old(bn.digits < bn.count || bn.V() <= m.V()) ==> status.Ok?
    ensures status.Ok? ==> m.V() > 0 && bn.Valid() && bn.V() == old(bn.V()) % m.V() && bn.digits <= m.digits
  {
    status := Div(bn, m, bn);
    if status.Ok? { FewerDigits(bn, m); }
  }

  /** bn_mod_add. */
  method ModAdd(bn: Bn, n: Bn, m: Bn) returns (status: Status)
    requires bn.Valid() && n.Valid() && m.Valid() && (bn == n || bn.Apart(n)) && bn.Apart(m)
    requires bn.V() < m.V() && n.V() < m.V()
    modifies bn, bn.num
    ensures bn.count == old(bn.count) && bn.Valid()
    ensures m.digits <= bn.count ==> status.Ok?
    ensures status.Ok? && m.digits <= bn.count ==>
      (bn.V() == (old(bn.V()) + old(n.V())) % m.V() <==> old(bn.V()) + old(n.V()) < BP(bn.count))
  {
    hide BP, Val;
    ghost var x, y, p := bn.V(), n.V(), m.V();
    FewerDigits(n, m);
    var carry: Digit;
    status, carry := bn.Add(n);
    if !status.Ok? { return; }
    bn.Below();
    ghost var z := bn.V();
    var c := bn.Cmp(m);
    if c >= 0 {
      var borrow: Digit;
      status, borrow := bn.Sub(m);
      bn.Below();
    }
    if status.Ok? && m.digits <= bn.count {
      BelowStorage(m, bn.count);
      ModAddCases(x, y, p, BP(bn.count), carry, z, bn.V());
    }
  }

  lemma ModAddCases(x: nat, y: nat, p: nat, q: nat, c: nat, z: nat, r: nat)
    requires x < p && y < p && p < q && c <= 1 && z + q * c == x + y && z < q
    requires r == if z >= p then z - p else z
    ensures r == (x + y) % p <==> x + y < q
  {
    if x + y < p { DivModUnique(x + y, p, 0, x + y); } else { DivModUnique(x + y, p, 1, x + y - p); }
  }

  /** The largest modulus of a storage of `count` digits, and the residue below it added to itself: the answer is
      wrong. */
  method ModAddAt(count: nat) returns (status: Status, bn: Bn)
    requires 0 < count <= MAX_DIGITS
    ensures status.Ok? && bn.Valid() && bn.count == count && BP(count) > 3
    ensures var p := BP(count) - 1; bn.V() != ((p - 1) + (p - 1)) % p
  {
    hide BP, Val;
    BPMonotonic(1, count);
    BPStep(0);
    var m, n;
    bn := BelowLimit(count, 2);
    n := BelowLimit(count, 2);
    m := BelowLimit(count, 1);
    status := ModAdd(bn, n, m);
  }

  /** Zero less k, which wraps around in the storage. */
  method BelowLimit(count: nat, k: Digit) returns (x: Bn)
    requires 0 < count <= MAX_DIGITS && 0 < k < B
    ensures fresh(x) && fresh(x.num) && x.Valid() && x.count == count && x.V() == BP(count) - k
    ensures x.digits <= count
  {
    hide BP, Val;
    x := new Bn();
    var status := x.Init(W * count);
    var borrow := x.SubDigitFrom(k);
    x.Below();
    OneBorrow(x.V(), BP(count), borrow, k);
  }

  lemma OneBorrow(v: nat, q: nat, borrow: nat, k: nat)
    requires v < q && borrow <= 1 && v + k == q * borrow && k > 0
    ensures v == q - k
  {}

  /** bn_mod_sub: exact even when the correcting addition of m overflows the storage. */
  method ModSub(bn: Bn, n: Bn, m: Bn) returns (status: Status)
    requires bn.Valid() && n.Valid() && m.Valid() && bn.Apart(n) && bn.Apart(m)
    requires bn.V() <= m.V() && n.V() < m.V()
    modifies bn, bn.num
    ensures bn.count == old(bn.count) && bn.Valid()
    ensures m.digits <= bn.count ==> status.Ok?
    ensures status.Ok? ==> bn.V() == (old(bn.V()) - n.V()) % m.V()
    ensures status.Ok? ==> bn.digits <= m.digits
  {
    hide BP, Val;
    ghost var x, y, p, q := bn.V(), n.V(), m.V(), BP(bn.count);
    FewerDigits(n, m);
    bn.Below();
    status := SubLifted(bn, n, m);
    if !status.Ok? { return; }
    FewerDigits(bn, m);
    status := Mod(bn, m);
    if x < y { ModAddMultiple(x as int - y, 1, p); }
  }

  lemma BelowStorage(m: Bn, count: nat)
    requires m.Shape() && m.digits <= count
    ensures m.V() < BP(count)
  {
    ValBound(m.num[..m.digits]);
    BPMonotonic(m.digits, count);
  }

  /** The addition and the subtraction of bn_mod_sub: a carry lost by the one is the borrow lost by the
      other. */
  method SubLifted(bn: Bn, n: Bn, m: Bn) returns (status: Status)
    requires bn.Valid() && n.Valid() && m.Valid() && bn.Apart(n) && bn.Apart(m)
    requires bn.V() <= m.V() && n.V() < m.V() && n.digits <= m.digits
    modifies bn`digits, bn.num
    ensures bn.Valid()
    ensures m.digits <= bn.count ==> status.Ok?
    ensures status.Ok? ==> bn.V() == old(bn.V()) - n.V() + (if old(bn.V()) < n.V() then m.V() else 0)
  {
    hide BP, Val;
    ghost var x, y, p, q := bn.V(), n.V(), m.V(), BP(bn.count);
    ghost var lost: int := 0;
    bn.Below();
    var c := bn.Cmp(n);
    if c < 0 {
      var carry: Digit;
      status, carry := bn.Add(m);
      if !status.Ok? { return; }
      lost := carry;
      BelowStorage(m, bn.count);
    }
    var borrow: Digit;
    status, borrow := bn.Sub(n);
    if !status.Ok? { return; }
    bn.Below();
    BelowStorage(n, bn.count);
    LostCarryIsTheBorrow(q, lost, borrow, bn.V(), x, y, p);
  }

  /** What is left after adding p if x < y and subtracting y, modulo q on the way. */
  lemma LostCarryIsTheBorrow(q: nat, lost: int, borrow: int, r: nat, x: nat, y: nat, p: nat)
    requires 0 <= lost <= 1 && 0 <= borrow <= 1 && r < q
    requires x <= p && y < p && x < q && y < q && (if x < y then p < q else lost == 0)
    requires r - q * borrow == (if x < y then x + p else x) - q * lost - y
    ensures r == if x < y then x + p - y else x - y
  {
    assert borrow == 0 || borrow == 1;
    assert lost == 0 || lost == 1;
  }

  /** bn_mod_mult, also for bn == n. */
  method ModMult(bn: Bn, n: Bn, m: Bn) returns (status: Status)
    requires bn.Valid() && n.Valid() && m.Valid() && (bn == n || bn.Apart(n)) && bn.Apart(m)
    modifies bn, bn.num
    ensures bn.count == old(bn.count) && bn.Shape()
    ensures m.V() > 0 && old(bn.digits + n.digits) < bn.count ==> status.Ok?
    ensures m.V() > 0 && old(bn.digits + n.digits) <= bn.count && old(Mul(bn.V(), n.V())) < BP(bn.count - 1) ==> status.Ok?
    ensures status.Ok? ==> m.V() > 0 && bn.Valid() && bn.digits <= m.digits
    ensures status.Ok? ==> bn.V() == old(bn.V()) * old(n.V()) % m.V()
  {
    hide BP, Val;
    MulIs(bn.V(), n.V());
    status := Mult(bn, n);
    if !status.Ok? { return; }
    DigitsFit(bn, bn.count - 1);
    status := Mod(bn, m);
  }

  /** bn_mod_exp for bn below m. */
  method ModExp(bn: Bn, exp: Bn, m: Bn) returns (status: Status)
    requires bn.Valid() && exp.Shape() && (exp.Valid() || exp.digits == 1) && m.Valid()
    requires bn.Apart(exp) && bn.Apart(m)
    requires bn.V() < m.V() && m.V() > 1
    modifies bn, bn.num
    ensures bn.count == old(bn.count) && bn.Shape()
    ensures m.count <= bn.count && 2 * m.digits < bn.count ==> status.Ok?
    ensures status.Ok? ==> bn.V() == Exp(old(bn.V()), exp.V()) % m.V()
  {
    hide BP, Val, Exp;
    if bn.count < m.count { return EOVERFLOW; }
    FewerDigits(bn, m);
    var done: bool;
    done, status := SmallExponent(bn, exp, m);
    if done { return; }
    if bn.digits * 2 > bn.count { return EOVERFLOW; }
    if bn.digits == 1 {
      OneDigit(bn);
      if bn.num[0] == 0 || bn.num[0] == 1 {
        PowersOfOne(exp.V());
        SmallMod(1, m.V());
        return Ok;
      }
    }
    status := SquareAndMultiply(bn, exp, m);
  }

  /** The one-digit exponents 0, 1 and 2 of bn_mod_exp. */
  method SmallExponent(bn: Bn, exp: Bn, m: Bn) returns (done: bool, status: Status)
    requires bn.Valid() && exp.Shape() && m.Valid() && bn.Apart(exp) && bn.Apart(m)
    requires bn.V() < m.V() && m.V() > 1 && bn.digits <= m.digits
    modifies bn, bn.num
    ensures bn.count == old(bn.count) && bn.Shape()
    ensures done <==> exp.digits == 1 && exp.num[0] <= 2
    ensures done && 2 * m.digits < bn.count ==> status.Ok?
    ensures done && status.Ok? ==> bn.V() == Exp(old(bn.V()), exp.V()) % m.V()
    ensures !done ==> bn.Valid() && bn.V() == old(bn.V()) && bn.digits == old(bn.digits)
  {
    hide BP, Val, Exp;
    done, status := false, Ok;
    if exp.digits == 1 {
      OneDigit(exp);
      SmallPowers(bn.V(), m.V());
      if exp.num[0] == 0 {
        status := bn.AssignDigit(1);
        return true, status;
      }
      if exp.num[0] == 1 { return true, Ok; }
      if exp.num[0] == 2 {
        status := ModMult(bn, bn, m);
        return true, status;
      }
    }
  }

  lemma OneDigit(a: Bn)
    requires a.Shape() && a.digits == 1
    ensures a.V() == a.num[0]
  {
    ValOne(a.num[..1]);
    assert a.num[..1][..1] == a.num[..1];
  }

  lemma SmallPowers(b: nat, m: nat)
    requires b < m && m > 1
    ensures Exp(b, 0) % m == 1 && Exp(b, 1) % m == b && Exp(b, 2) == b * b
  {
    ExpNext(b, 0);
    ExpNext(b, 1);
  }

  lemma {:induction false} PowersOfOne(e: nat)
    ensures Exp(1, e) == 1
  {
    if e > 0 { PowersOfOne(e - 1); }
  }

  /** One turn of the loop of bn_mod_exp. */
  method PowerTurn(bn: Bn, base: Bn, m: Bn, odd: bool) returns (status: Status)
    requires bn.Valid() && base.Valid() && m.Valid() && bn.Apart(base) && bn.Apart(m) && base.Apart(m)
    requires bn.digits <= m.digits && base.digits <= m.digits && m.V() > 0 && bn.count == base.count
    requires bn.V() < m.V()
    modifies bn, bn.num, base, base.num
    ensures bn.count == old(bn.count) && base.count == old(base.count) && bn.Shape() && base.Shape()
    ensures 2 * m.digits < bn.count ==> status.Ok?
    ensures status.Ok? ==> bn.Valid() && base.Valid() && bn.digits <= m.digits && base.digits <= m.digits
    ensures status.Ok? ==> bn.V() == if odd then old(bn.V()) * old(base.V()) % m.V() else old(bn.V())
    ensures status.Ok? ==> base.V() == old(base.V()) * old(base.V()) % m.V()
    ensures status.Ok? ==> bn.V() < m.V() && base.V() < m.V()
  {
    hide BP, Val;
    if odd {
      status := ModMult(bn, base, m);
      if !status.Ok? { return; }
    }
    status := ModMult(base, base, m);
  }

  /** The loop of bn_mod_exp over the bits of the exponent, lowest first. */
  method SquareAndMultiply(bn: Bn, exp: Bn, m: Bn) returns (status: Status)
    requires bn.Valid() && exp.Valid() && m.Valid() && bn.Apart(exp) && bn.Apart(m)
    requires bn.V() < m.V() && m.V() > 1 && bn.digits <= m.digits
    modifies bn, bn.num
    ensures bn.count == old(bn.count) && bn.Shape()
    ensures 2 * m.digits < bn.count ==> status.Ok?
    ensures status.Ok? ==> bn.V() == Exp(old(bn.V()), exp.V()) % m.V()
  {
    hide BP, Val, Exp, Pow2, Power;
    ghost var b := bn.V();
    var base := new Bn();
    base.AssignInit(bn);
    status := bn.AssignDigit(1);
    m.OneIff();
    var bits := exp.CalcBits();
    ExpUnit(b, exp.V(), m.V());
    BitsUsedUp(exp.V(), bits);
    status := PowerLoop(bn, base, exp, m, bits, b);
  }

  method PowerLoop(bn: Bn, base: Bn, exp: Bn, m: Bn, bits: nat, ghost b: nat) returns (status: Status)
    requires bn.Valid() && base.Valid() && exp.Valid() && m.Valid()
    requires bn.Apart(exp) && bn.Apart(m) && base.Apart(exp) && base.Apart(m) && bn.Apart(base)
    requires bn.V() < m.V() && base.V() < m.V() && bn.digits <= m.digits && base.digits <= m.digits
    requires bn.count == base.count && bits <= W * exp.digits && exp.V() / Pow2(bits) == 0
    requires Power(bn.V(), base.V(), exp.V(), b, exp.V(), m.V())
    modifies bn, bn.num, base, base.num
    ensures bn.count == old(bn.count) && bn.Shape()
    ensures 2 * m.digits < bn.count ==> status.Ok?
    ensures status.Ok? ==> bn.V() == Exp(b, exp.V()) % m.V()
  {
    hide BP, Val, Exp, Pow2, Bit, Power;
    ghost var e, p := exp.V(), m.V();
    var i := 0;
    ghost var k: nat := e;
    Pow2Bits(e, 0);
    while i < bits
      invariant 0 <= i <= bits && k == e / Pow2(i)
      invariant bn.Valid() && base.Valid() && bn.count == base.count == old(bn.count)
      invariant bn.V() < p && base.V() < p && bn.digits <= m.digits && base.digits <= m.digits
      invariant Power(bn.V(), base.V(), k, b, e, p)
    {
      Pow2Bits(e, i);
      PowerKept(bn.V(), base.V(), k, b, e, p);
      var odd := exp.IsBitSet(i);
      status := PowerTurn(bn, base, m, odd);
      if !status.Ok? { return; }
      k := k / 2;
      i := i + 1;
    }
    ExpDone(bn.V(), base.V(), b, e, p);
    status := Ok;
  }

  lemma Pow2Bits(e: nat, i: nat)
    ensures e / Pow2(i) / 2 == e / Pow2(i + 1) && e / Pow2(0) == e && Bit(e, i) == e / Pow2(i) % 2
  {
    DivDiv(e, Pow2(i), 2);
  }

  /** acc times base to the remaining exponent k is still b to the e. */
  predicate Power(acc: nat, base: nat, k: nat, b: nat, e: nat, p: nat)
    requires p > 0
  {
    acc * Exp(base, k) % p == Exp(b, e) % p
  }

  lemma PowerKept(acc: nat, base: nat, k: nat, b: nat, e: nat, p: nat)
    requires p > 0 && Power(acc, base, k, b, e, p)
    ensures Power(if k % 2 == 1 then acc * base % p else acc, base * base % p, k / 2, b, e, p)
  {
    PowerStep(acc, base, k, p);
  }

  lemma ExpUnit(b: nat, e: nat, p: nat)
    requires p > 0
    ensures Power(1, b, e, b, e, p)
  {}

  lemma BitsUsedUp(e: nat, bits: nat)
    requires if e == 0 then bits == 0 else e < Pow2(bits)
    ensures e / Pow2(bits) == 0
  {
    DivModUnique(e, Pow2(bits), 0, e);
  }

  lemma ExpDone(acc: nat, base: nat, b: nat, e: nat, p: nat)
    requires acc < p && Power(acc, base, 0, b, e, p)
    ensures acc == Exp(b, e) % p
  {
    SmallMod(acc, p);
  }
}
