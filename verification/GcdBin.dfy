/** bn_gcd_bin of include/math/big_num.h: Stein's algorithm. */
module GcdBin {
  import opened Common
  import opened Numbers
  import opened Digits
  import opened Shifts
  import opened Bits
  import opened BigNum
  import opened Divide
  import opened ModInverse

  // ----- the greatest common divisor -----

  function Gcd(a: nat, b: nat): nat
    decreases b
  {
    if b == 0 then a else Gcd(b, a % b)
  }

  /** Gcd divides both numbers and every common divisor divides it. */
  lemma {:induction false} GcdIsGreatest(a: nat, b: nat)
    requires a > 0 || b > 0
    ensures Gcd(a, b) > 0 && Divides(Gcd(a, b), a) && Divides(Gcd(a, b), b)
    ensures forall d: nat :: d > 0 && Divides(d, a) && Divides(d, b) ==> Divides(d, Gcd(a, b))
    decreases b
  {
    if b > 0 {
      GcdIsGreatest(b, a % b);
      var g := Gcd(b, a % b);
      CommonStep(g, a, b);
      forall d: nat | d > 0 && Divides(d, a) && Divides(d, b) ensures Divides(d, g) {
        CommonStep(d, a, b);
      }
    }
  }

  lemma CommonStep(d: nat, a: nat, b: nat)
    requires d > 0 && b > 0 && Divides(d, b)
    ensures Divides(d, a) <==> Divides(d, a % b)
  {
    var q := a / b;
    assert a == b * q + a % b;
    DividesMultiple(d, b, q);
    if Divides(d, a) { DividesSum(d, a, b * q); }
    if Divides(d, a % b) { DividesSum(d, b * q, a % b); }
  }

  /** Mutual divisors are equal. */
  lemma DividesAntisym(x: nat, y: nat)
    requires x > 0 && y > 0 && Divides(x, y) && Divides(y, x)
    ensures x == y
  {
    var i, j := y / x, x / y;
    assert y == x * i && x == y * j;
    if i == 0 || j == 0 { assert false; }
    MulMono(x, 1, i);
    MulMono(y, 1, j);
  }

  /** A common divisor that every common divisor divides is the gcd. */
  lemma GcdUnique(a: nat, b: nat, g: nat)
    requires (a > 0 || b > 0) && g > 0 && Divides(g, a) && Divides(g, b)
    requires forall d: nat :: d > 0 && Divides(d, a) && Divides(d, b) ==> Divides(d, g)
    ensures Gcd(a, b) == g
  {
    GcdIsGreatest(a, b);
    DividesAntisym(g, Gcd(a, b));
  }

  lemma GcdSym(a: nat, b: nat)
    ensures Gcd(a, b) == Gcd(b, a)
  {
    if a > 0 || b > 0 {
      GcdIsGreatest(b, a);
      GcdUnique(a, b, Gcd(b, a));
    }
  }

  lemma GcdZero(a: nat)
    ensures Gcd(a, 0) == a && Gcd(0, a) == a
  {
    GcdSym(a, 0);
  }

  lemma GcdSub(a: nat, b: nat)
    requires a <= b && a > 0
    ensures Gcd(a, b - a) == Gcd(a, b)
  {
    var g := Gcd(a, b);
    GcdIsGreatest(a, b);
    DividesSum(g, b, a);
    forall d: nat | d > 0 && Divides(d, a) && Divides(d, b - a) ensures Divides(d, g) {
      DividesBack(d, b, a);
    }
    GcdUnique(a, b - a, g);
  }

  /** An odd divisor of 2b divides b. */
  lemma OddDivisor(d: nat, b: nat)
    requires d > 0 && d % 2 == 1 && Divides(d, 2 * b)
    ensures Divides(d, b)
  {
    HalfMultiple(2 * b, d);
  }

  /** A factor two of one number does not matter beside an odd one. */
  lemma GcdHalf(a: nat, b: nat)
    requires a % 2 == 1
    ensures Gcd(a, 2 * b) == Gcd(a, b)
  {
    var g := Gcd(a, b);
    GcdIsGreatest(a, b);
    DividesMultiple(g, b, 2);
    forall d: nat | d > 0 && Divides(d, a) && Divides(d, 2 * b) ensures Divides(d, g) {
      OddFactor(d, a);
      OddDivisor(d, b);
    }
    GcdUnique(a, 2 * b, g);
  }

  lemma {:induction false} GcdDouble(a: nat, b: nat)
    ensures Gcd(2 * a, 2 * b) == 2 * Gcd(a, b)
    decreases b
  {
    if b > 0 {
      GcdDouble(b, a % b);
      DoubleMod(a, b);
    }
  }

  lemma DoubleMod(a: nat, b: nat)
    requires b > 0
    ensures 2 * a % (2 * b) == 2 * (a % b)
  {
    var q, r := a / b, a % b;
    assert a == b * q + r;
    assert 2 * a == q * (2 * b) + 2 * r by { assert 2 * (b * q) == q * (2 * b); }
    DivModUnique(2 * a, 2 * b, q, 2 * r);
  }

  lemma {:induction false} GcdShiftOdd(a: nat, b: nat, k: nat)
    requires a % 2 == 1
    ensures Gcd(a, Pow2(k) * b) == Gcd(a, b)
  {
    if k > 0 {
      GcdShiftOdd(a, b, k - 1);
      GcdHalf(a, Pow2(k - 1) * b);
      MulAssociative(2, Pow2(k - 1), b);
    }
  }

  lemma {:induction false} GcdShiftBoth(a: nat, b: nat, k: nat)
    ensures Gcd(Pow2(k) * a, Pow2(k) * b) == Pow2(k) * Gcd(a, b)
  {
    if k > 0 {
      GcdShiftBoth(a, b, k - 1);
      var p := Pow2(k - 1);
      GcdDouble(p * a, p * b);
      MulAssociative(2, p, a);
      MulAssociative(2, p, b);
      MulAssociative(2, p, Gcd(a, b));
    }
  }

  /** The powers of two of both numbers, taken out: only the smaller one is shared. */
  lemma GcdOdd(a: nat, b: nat, i: nat, j: nat)
    requires a % 2 == 1 && b % 2 == 1
    ensures Gcd(Pow2(i) * a, Pow2(j) * b) == Pow2(Min(i, j)) * Gcd(a, b)
  {
    hide Pow2, Gcd;
    var m := Min(i, j);
    Pow2Add(m, i - m);
    Pow2Add(m, j - m);
    MulAssociative(Pow2(m), Pow2(i - m), a);
    MulAssociative(Pow2(m), Pow2(j - m), b);
    GcdShiftBoth(Pow2(i - m) * a, Pow2(j - m) * b, m);
    if i <= j {
      Pow2Zero();
      GcdShiftOdd(a, b, j - m);
    } else {
      Pow2Zero();
      GcdSym(Pow2(i - m) * a, b);
      GcdShiftOdd(b, a, i - m);
      GcdSym(b, a);
    }
  }

  // ----- the algorithm -----

  /** One turn of the loop: ta is odd, and tb loses its factors of two and then the smaller number. */
  method Turn(ta: Bn, tb: Bn, shiftB: nat) returns (swapped: bool, next: nat)
    requires ta.Valid() && tb.Valid() && ta.Apart(tb) && ta.V() % 2 == 1 && tb.V() > 0
    requires shiftB < W * tb.digits && tb.V() % Pow2(shiftB) == 0 && tb.V() / Pow2(shiftB) % 2 == 1
    modifies ta`digits, ta.num, tb`digits, tb.num
    ensures ta.Valid() && tb.Valid()
    ensures var x, y := (if swapped then tb else ta), (if swapped then ta else tb);
      && x.V() % 2 == 1 && x.V() + y.V() < old(ta.V() + tb.V())
      && Gcd(x.V(), y.V()) == old(Gcd(ta.V(), tb.V()))
      && (y.V() > 0 ==> next < W * y.digits && y.V() % Pow2(next) == 0 && y.V() / Pow2(next) % 2 == 1)
  {
    hide Pow2, BP, Val, Gcd;
    ghost var a := ta.V();
    ghost var c := TwosDropped(a, tb.V(), shiftB);
    tb.RShift(shiftB);
    GcdSym(a, c);
    var r := ta.Cmp(tb);
    swapped := r > 0;
    if swapped {
      GcdSub(c, a);
      next := SubAndCount(ta, tb);
    } else {
      GcdSub(a, c);
      next := SubAndCount(tb, ta);
    }
  }

  lemma TwosDropped(a: nat, b: nat, k: nat) returns (c: nat)
    requires a % 2 == 1 && b % Pow2(k) == 0
    ensures c == b / Pow2(k) && c <= b && Gcd(a, c) == Gcd(a, b)
  {
    hide Pow2, Gcd;
    DivNat(b, Pow2(k));
    c := b / Pow2(k);
    ExactQuotient(b, Pow2(k));
    MulMono(c, 1, Pow2(k));
    GcdShiftOdd(a, c, k);
  }

  /** `bn_sub(tb, ta)` and the count of the factors of two in what is left. */
  method SubAndCount(tb: Bn, ta: Bn) returns (next: nat)
    requires ta.Valid() && tb.Valid() && tb.Apart(ta) && tb.V() >= ta.V()
    modifies tb`digits, tb.num
    ensures tb.Valid() && tb.V() == old(tb.V()) - ta.V()
    ensures tb.V() > 0 ==> next < W * tb.digits && tb.V() % Pow2(next) == 0 && tb.V() / Pow2(next) % 2 == 1
  {
    hide Pow2, BP, Val;
    ghost var a, c := ta.V(), tb.V();
    FewerDigits(ta, tb);
    var status, borrow := tb.Sub(ta);
    NoBorrowLeft(tb, c, a, borrow);
    tb.Bounds();
    next := tb.Ctz();
  }

  lemma NoBorrowLeft(x: Bn, a: nat, c: nat, borrow: nat)
    requires x.Shape() && a >= c && x.V() - BP(x.count) * borrow == a - c
    ensures borrow == 0
  {
    x.Below();
    if borrow > 0 { MulMono(BP(x.count), 1, borrow); }
  }

  /** bn_gcd_bin. When the result object is b, it is overwritten by a before it is copied. */
  method Gcd2(bn: Bn, a: Bn, b: Bn) returns (status: Status)
    requires bn.Shape() && a.Valid() && b.Valid() && (bn == a || bn.Apart(a)) && (bn == b || bn.Apart(b))
    modifies bn, bn.num
    ensures status.Ok? ==> bn.Valid()
    ensures status.Ok? && bn != b ==> bn.V() == Gcd(old(a.V()), old(b.V()))
    ensures status.Ok? && bn == b ==> bn.V() == Overwritten(old(a.V()), old(b.V()))
    ensures old(a.digits) <= old(bn.count) && old(b.digits) <= old(bn.count) ==> status.Ok?
  {
    hide Pow2, BP, Val, Gcd;
    a.Bounds();
    b.Bounds();
    GcdZero(a.V());
    GcdZero(b.V());
    if a.IsZero() {
      status := bn.Assign(b);
      return;
    }
    if b.IsZero() {
      status := bn.Assign(a);
      return;
    }
    var r := a.Cmp(b);
    if r == 0 {
      GcdEqual(a.V());
      status := bn.Assign(a);
      return;
    }
    status := Stein(bn, a, b);
  }

  /** What bn_gcd_bin leaves in b. */
  function Overwritten(a: nat, b: nat): nat { if a == 0 then b else a }

  /** It is the gcd exactly when a is zero or divides b. */
  lemma OverwrittenIff(a: nat, b: nat)
    ensures Overwritten(a, b) == Gcd(a, b) <==> a == 0 || Divides(a, b)
  {
    hide Gcd;
    GcdZero(b);
    if a > 0 {
      GcdIsGreatest(a, b);
      SelfDivides(a);
      if Divides(a, b) { DividesAntisym(a, Gcd(a, b)); }
    }
  }

  /** Six and four: six is answered. */
  lemma OverwrittenAt()
    ensures Overwritten(6, 4) == 6 && Gcd(6, 4) == 2
  {
    assert Gcd(2, 0) == 2 && Gcd(4, 2) == Gcd(2, 0);
  }

  /** The loop of bn_gcd_bin. */
  method Stein(bn: Bn, a: Bn, b: Bn) returns (status: Status)
    requires bn.Shape() && a.Valid() && b.Valid() && (bn == a || bn.Apart(a)) && (bn == b || bn.Apart(b))
    requires a.V() > 0 && b.V() > 0 && a != b
    modifies bn, bn.num
    ensures status.Ok? && bn.Valid()
    ensures bn.V() == if bn == b then old(a.V()) else Gcd(old(a.V()), old(b.V()))
  {
    hide Pow2, BP, Val, Gcd;
    ghost var u, w := a.V(), if bn == b then a.V() else b.V();
    var tmp := new Bn();
    bn.AssignInit(a);
    tmp.AssignInit(b);
    GcdEqual(u);
    bn.Below();
    GcdBelow(u, w);
    var shift: nat, shiftB: nat;
    shift, shiftB := TakeTwos(bn, tmp);
    ghost var g := Gcd(bn.V(), tmp.V());
    var ta := SteinLoop(bn, tmp, shiftB);
    GcdFits(ta, g, shift, u, bn.count);
    RestoreTwos(bn, ta, shift);
    status := Ok;
  }

  /** The factors of two of ta are taken out; the shared ones are returned in shift. */
  method TakeTwos(ta: Bn, tb: Bn) returns (shift: nat, shiftB: nat)
    requires ta.Valid() && tb.Valid() && ta.Apart(tb) && ta.V() > 0 && tb.V() > 0
    modifies ta`digits, ta.num
    ensures ta.Valid() && ta.V() % 2 == 1 && shift <= W * ta.count
    ensures shiftB < W * tb.digits && tb.V() % Pow2(shiftB) == 0 && tb.V() / Pow2(shiftB) % 2 == 1
    ensures Pow2(shift) * Gcd(ta.V(), tb.V()) == Gcd(old(ta.V()), tb.V())
  {
    hide Pow2, BP, Val, Gcd;
    ghost var u, w := ta.V(), tb.V();
    ta.Bounds();
    tb.Bounds();
    var shiftA := ta.Ctz();
    shiftB := tb.Ctz();
    shift := if shiftA >= shiftB then shiftB else shiftA;
    ta.RShift(shiftA);
    TwosShared(u, w, shiftA, shiftB);
  }

  lemma TwosShared(u: nat, w: nat, i: nat, j: nat)
    requires u % Pow2(i) == 0 && w % Pow2(j) == 0 && u / Pow2(i) % 2 == 1 && w / Pow2(j) % 2 == 1
    ensures Pow2(Min(i, j)) * Gcd(u / Pow2(i), w) == Gcd(u, w)
  {
    hide Pow2, Gcd;
    ExactQuotient(u, Pow2(i));
    ExactQuotient(w, Pow2(j));
    GcdShiftOdd(u / Pow2(i), w / Pow2(j), j);
    GcdOdd(u / Pow2(i), w / Pow2(j), i, j);
  }

  lemma GcdBelow(u: nat, w: nat)
    requires u > 0
    ensures 0 < Gcd(u, w) <= u
  {
    GcdIsGreatest(u, w);
    var g := Gcd(u, w);
    var k := u / g;
    assert u == g * k;
    if k >= 1 { MulMono(g, 1, k); }
  }

  /** The gcd fits where a was, before and after its factors of two are put back. */
  lemma GcdFits(ta: Bn, g: nat, shift: nat, u: nat, count: nat)
    requires ta.Valid() && ta.V() == g && Pow2(shift) * g <= u < BP(count)
    ensures ta.digits <= count
  {
    hide BP, Val, Pow2;
    ta.Bounds();
    MulMono(g, 1, Pow2(shift));
    if ta.digits > count { BPMonotonic(count, ta.digits - 1); }
  }

  /** The common factors of two are put back. */
  method RestoreTwos(bn: Bn, ta: Bn, shift: nat)
    requires bn.Shape() && ta.Valid() && (bn == ta || bn.Apart(ta))
    requires ta.digits <= bn.count && shift <= W * bn.count && Pow2(shift) * ta.V() < BP(bn.count)
    modifies bn`digits, bn.num
    ensures bn.Valid() && bn.V() == Pow2(shift) * old(ta.V())
  {
    hide Pow2, BP, Val;
    ghost var g := ta.V();
    var status := bn.Assign(ta);
    bn.LShift(shift);
    SmallMod(Pow2(shift) * g, BP(bn.count));
  }

  /** The loop of bn_gcd_bin: it ends with the gcd in one of the two objects. */
  method SteinLoop(bn: Bn, tmp: Bn, shift: nat) returns (ta: Bn)
    requires bn.Valid() && tmp.Valid() && bn.Apart(tmp) && bn.V() % 2 == 1 && tmp.V() > 0
    requires shift < W * tmp.digits && tmp.V() % Pow2(shift) == 0 && tmp.V() / Pow2(shift) % 2 == 1
    modifies bn`digits, bn.num, tmp`digits, tmp.num
    ensures bn.Valid() && tmp.Valid() && (ta == bn || ta == tmp)
    ensures ta.V() == old(Gcd(bn.V(), tmp.V()))
  {
    hide BP, Val, Pow2, Gcd;
    ghost var g := Gcd(bn.V(), tmp.V());
    ta := bn;
    var tb: Bn, shiftB: nat := tmp, shift;
    tmp.Bounds();
    while !tb.IsZero()
      invariant bn.Valid() && tmp.Valid()
      invariant (ta == bn && tb == tmp) || (ta == tmp && tb == bn)
      invariant ta.V() % 2 == 1 && Gcd(ta.V(), tb.V()) == g
      invariant tb.V() > 0 ==>
        shiftB < W * tb.digits && tb.V() % Pow2(shiftB) == 0 && tb.V() / Pow2(shiftB) % 2 == 1
      decreases ta.V() + tb.V()
    {
      tb.Bounds();
      var swapped: bool;
      swapped, shiftB := Turn(ta, tb, shiftB);
      if swapped { ta, tb := tb, ta; }
    }
    tb.Bounds();
    GcdZero(ta.V());
  }

  lemma GcdEqual(a: nat)
    requires a > 0
    ensures Gcd(a, a) == a
  {
    DivModUnique(a, a, 1, 0);
  }
}
