/** The chord-and-tangent operation over a prime field, the Jacobian formulas of include/math/elliptic_curve.h,
    and their agreement. Coordinates are reduced numbers. */
module Jacobian {
  import opened Numbers
  import opened Bits
  import opened ModInverse
  import opened Modular
  import opened Field

  datatype Pt = Infinity | Pt(x: nat, y: nat)

  /** The part of ec_curve_t that the formulas use; am3 is EC_CURVE_FLAG_A_M3. */
  datatype Curve = Curve(p: nat, a: nat, am3: bool) {
    ghost predicate Valid()
    {
      Prime(p) && p > 3 && a < p && (am3 ==> Eq(a, -3, p))
    }
  }

  lemma NonZero(z: nat, p: nat)
    requires 0 < z < p
    ensures !Eq(z, 0, p)
  {
    hide Eq;
    if Eq(z, 0, p) { EqUnique(z, 0, p); }
  }

  lemma PrimeOdd(p: nat)
    requires Prime(p) && p > 3
    ensures p % 2 == 1 && !Eq(2, 0, p)
  {
    NonZero(2, p);
    assert !Divides(2, p);
  }

  lemma InvUnique(x: int, y: nat, p: nat)
    requires Prime(p) && !Eq(x, 0, p) && y < p && Eq(Mul(x, y), 1, p)
    ensures y == Inv(x, p)
  {
    hide Mul, Divides;
    EqSym(Mul(x, Inv(x, p)), 1, p);
    EqTrans(Mul(x, y), 1, Mul(x, Inv(x, p)), p);
    Cancel(x, y, Inv(x, p), p);
    EqUnique(y, Inv(x, p), p);
  }

  // ----- the chord-and-tangent group operation -----

  /** The third point of the line of slope lam through a point, reflected. */
  function LineX(lam: nat, x1: nat, x2: nat, p: nat): (r: nat)
    requires p > 0
    ensures r < p
  {
    FSub(FSub(FMul(lam, lam, p), x1, p), x2, p)
  }

  function LineY(lam: nat, x1: nat, y1: nat, x3: nat, p: nat): (r: nat)
    requires p > 0
    ensures r < p
  {
    FSub(FMul(lam, FSub(x1, x3, p), p), y1, p)
  }

  predicate On(pt: Pt, p: nat) { pt.Pt? ==> pt.x < p && pt.y < p }

  lemma DifferentX(x1: nat, x2: nat, p: nat)
    requires x1 < p && x2 < p && x1 != x2
    ensures !Eq(x2 - x1, 0, p) && !Eq(FSub(x2, x1, p), 0, p)
  {
    hide FSub, Divides;
    if Eq(x2 - x1, 0, p) {
      EqSame(x1, p);
      EqAdd(x2 - x1, 0, x1, x1, p);
      EqUnique(x2, x1, p);
    }
    if Eq(FSub(x2, x1, p), 0, p) {
      EqSym(FSub(x2, x1, p), x2 - x1, p);
      EqTrans(x2 - x1, FSub(x2, x1, p), 0, p);
    }
  }

  lemma DoubleNonZero(y: nat, p: nat)
    requires Prime(p) && p > 3 && 0 < y < p
    ensures !Eq(Mul(2, y), 0, p) && !Eq(FMul(y, 2, p), 0, p)
  {
    hide FMul, Mul, Divides;
    PrimeOdd(p);
    NonZero(y, p);
    NonZeroProduct(2, y, p);
    MulCommutes(2, y);
    if Eq(FMul(y, 2, p), 0, p) {
      EqSym(FMul(y, 2, p), Mul(y, 2), p);
      EqTrans(Mul(y, 2), FMul(y, 2, p), 0, p);
    }
  }

  ghost function ChordSlope(p1: Pt, p2: Pt, p: nat): (lam: nat)
    requires Prime(p) && p1.Pt? && p2.Pt? && On(p1, p) && On(p2, p) && p1.x != p2.x
  {
    DifferentX(p1.x, p2.x, p);
    FMul(FSub(p2.y, p1.y, p), Inv(FSub(p2.x, p1.x, p), p), p)
  }

  ghost function TangentSlope(pt: Pt, c: Curve): (lam: nat)
    requires c.Valid() && pt.Pt? && On(pt, c.p) && pt.y > 0
  {
    DoubleNonZero(pt.y, c.p);
    FMul(FAdd(FMul(FMul(pt.x, pt.x, c.p), 3, c.p), c.a, c.p), Inv(FMul(pt.y, 2, c.p), c.p), c.p)
  }

  ghost function Line(lam: nat, p1: Pt, p2: Pt, p: nat): Pt
    requires p > 0 && p1.Pt? && p2.Pt?
  {
    var x3 := LineX(lam, p1.x, p2.x, p);
    Pt(x3, LineY(lam, p1.x, p1.y, x3, p))
  }

  /** The sum of two points by chord and tangent. */
  ghost function ECAdd(p1: Pt, p2: Pt, c: Curve): (r: Pt)
    requires c.Valid() && On(p1, c.p) && On(p2, c.p)
    ensures On(r, c.p)
  {
    if p2.Infinity? then p1
    else if p1.Infinity? then p2
    else if p1.x != p2.x then Line(ChordSlope(p1, p2, c.p), p1, p2, c.p)
    else if p1.y != p2.y || p1.y == 0 then Infinity
    else Line(TangentSlope(p1, c), p1, p2, c.p)
  }

  lemma DifferenceZero(x: nat, y: nat, p: nat)
    requires x < p && y < p
    ensures FSub(x, y, p) == 0 <==> x == y
  {
    if x != y {
      DifferentX(y, x, p);
      EqSame(0, p);
    } else {
      ModZero(p);
    }
  }

  lemma MinusThree(x: nat, c: Curve)
    requires c.Valid() && c.am3
    ensures FSub(x, 3, c.p) == FAdd(x, c.a, c.p)
  {
    hide FAdd, FSub, Divides;
    EqSame(x, c.p);
    EqAdd(x, x, c.a, -3, c.p);
    EqTrans(FAdd(x, c.a, c.p), x + c.a, x - 3, c.p);
    EqSym(FSub(x, 3, c.p), x - 3, c.p);
    EqTrans(FAdd(x, c.a, c.p), x - 3, FSub(x, 3, c.p), c.p);
    EqUnique(FAdd(x, c.a, c.p), FSub(x, 3, c.p), c.p);
  }

  // ----- Jacobian coordinates -----

  /** The affine point (X / Z^2, Y / Z^3). */
  ghost function Affine(x: nat, y: nat, z: nat, p: nat): (r: Pt)
    requires Prime(p) && z < p
    ensures On(r, p)
  {
    if z == 0 then Infinity
    else
      NonZero(z, p);
      var zi := Inv(z, p);
      Pt(FMul(x, FMul(zi, zi, p), p), FMul(FMul(y, FMul(zi, zi, p), p), zi, p))
  }

  /** The pair (x, y) is the affine form of (X : Y : Z). */
  predicate Rep(x: int, y: int, X: int, Y: int, Z: int, p: nat)
    requires p > 0
  {
    Eq(Mul(x, Mul(Z, Z)), X, p) && Eq(Mul(y, Mul(Z, Mul(Z, Z))), Y, p)
  }

  lemma EqMulAt(c: int, x: int, y: int, p: nat)
    requires p > 0 && Eq(x, y, p)
    ensures Eq(Mul(c, x), Mul(c, y), p) && Eq(Mul(x, c), Mul(y, c), p)
  {
    hide Eq, Mul;
    EqSame(c, p);
    EqMul(c, c, x, y, p);
    EqMul(x, y, c, c, p);
  }

  lemma EqPowers(x: int, y: int, p: nat)
    requires p > 0 && Eq(x, y, p)
    ensures Eq(Mul(x, x), Mul(y, y), p) && Eq(Mul(x, Mul(x, x)), Mul(y, Mul(y, y)), p)
  {
    hide Eq, Mul;
    EqMul(x, y, x, y, p);
    EqMul(x, y, Mul(x, x), Mul(y, y), p);
  }

  lemma UnitFactor(x: int, u: int, p: nat)
    requires p > 0 && Eq(u, 1, p)
    ensures Eq(Mul(x, u), x, p)
  {
    hide Eq;
    EqMulAt(x, u, 1, p);
    assert Mul(x, 1) == x;
  }

  lemma OnePowers()
    ensures Mul(1, 1) == 1
  {}

  /** The affine form represents the point. */
  lemma AffineRep(x: nat, y: nat, z: nat, p: nat)
    requires Prime(p) && 0 < z < p
    ensures Affine(x, y, z, p).Pt? && Rep(Affine(x, y, z, p).x, Affine(x, y, z, p).y, x, y, z, p)
  {
    hide Eq, Mul, FMul;
    NonZero(z, p);
    var i := Inv(z, p);
    var w, v := Mul(z, z), Mul(z, Mul(z, z));
    var i2 := FMul(i, i, p);
    var ax, t := FMul(x, i2, p), FMul(y, i2, p);
    var ay := FMul(t, i, p);
    EqPowers(Mul(z, i), 1, p);
    OnePowers();
    // the abscissa
    EqMulAt(x, i2, Mul(i, i), p);
    EqTrans(ax, Mul(x, i2), Mul(x, Mul(i, i)), p);
    EqMulAt(w, ax, Mul(x, Mul(i, i)), p);
    SquareUnit(x, i, z);
    UnitFactor(x, Mul(Mul(z, i), Mul(z, i)), p);
    EqTrans(Mul(ax, w), Mul(Mul(x, Mul(i, i)), w), x, p);
    // the ordinate
    EqMulAt(y, i2, Mul(i, i), p);
    EqTrans(t, Mul(y, i2), Mul(y, Mul(i, i)), p);
    EqMulAt(i, t, Mul(y, Mul(i, i)), p);
    EqTrans(ay, Mul(t, i), Mul(Mul(y, Mul(i, i)), i), p);
    EqMulAt(v, ay, Mul(Mul(y, Mul(i, i)), i), p);
    CubeUnit(y, i, z);
    UnitFactor(y, Mul(Mul(z, i), Mul(Mul(z, i), Mul(z, i))), p);
    EqTrans(Mul(ay, v), Mul(Mul(Mul(y, Mul(i, i)), i), v), y, p);
  }

  lemma SquareUnit(x: int, i: int, z: int)
    ensures Mul(Mul(x, Mul(i, i)), Mul(z, z)) == Mul(x, Mul(Mul(z, i), Mul(z, i)))
  {}

  lemma CubeUnit(y: int, i: int, z: int)
    ensures Mul(Mul(Mul(y, Mul(i, i)), i), Mul(z, Mul(z, z))) == Mul(y, Mul(Mul(z, i), Mul(Mul(z, i), Mul(z, i))))
  {}

  /** A represented pair of reduced numbers is the affine form. */
  lemma RepAffine(ax: nat, ay: nat, x: nat, y: nat, z: nat, p: nat)
    requires Prime(p) && 0 < z < p && ax < p && ay < p && Rep(ax, ay, x, y, z, p)
    ensures Affine(x, y, z, p) == Pt(ax, ay)
  {
    hide Eq, Mul, FMul, Affine, Prime;
    NonZero(z, p);
    AffineRep(x, y, z, p);
    var r := Affine(x, y, z, p);
    NonZeroProduct(z, z, p);
    NonZeroProduct(z, Mul(z, z), p);
    SameMultiple(Mul(z, z), ax, r.x, x, p);
    SameMultiple(Mul(z, Mul(z, z)), ay, r.y, y, p);
  }

  lemma SameMultiple(c: int, x: nat, y: nat, u: int, p: nat)
    requires Prime(p) && !Eq(c, 0, p) && x < p && y < p && Eq(Mul(x, c), u, p) && Eq(Mul(y, c), u, p)
    ensures x == y
  {
    hide Eq, Mul;
    EqSym(Mul(y, c), u, p);
    EqTrans(Mul(x, c), u, Mul(y, c), p);
    MulCommutes(x, c);
    MulCommutes(y, c);
    Cancel(c, x, y, p);
    EqUnique(x, y, p);
  }

  lemma AffineOne(x: nat, y: nat, p: nat)
    requires Prime(p) && p > 3 && x < p && y < p
    ensures Affine(x, y, 1, p) == Pt(x, y)
  {
    hide Eq, Affine;
    assert Mul(1, 1) == 1 && Mul(1, Mul(1, 1)) == 1 && Mul(x, 1) == x && Mul(y, 1) == y;
    EqSame(x, p);
    EqSame(y, p);
    RepAffine(x, y, x, y, 1, p);
  }

  // ----- lines in Jacobian coordinates -----

  lemma LineEq(lam: nat, x1: nat, y1: nat, x2: nat, p: nat)
    requires p > 0
    ensures Eq(LineX(lam, x1, x2, p), Mul(lam, lam) - x1 - x2, p)
    ensures var x3 := LineX(lam, x1, x2, p); Eq(LineY(lam, x1, y1, x3, p), Mul(lam, x1 - x3) - y1, p)
  {
    hide Eq, Mul, FMul, FSub;
    var x3 := LineX(lam, x1, x2, p);
    var s := FMul(lam, lam, p);
    EqSame(x1, p);
    EqSame(x2, p);
    EqSame(y1, p);
    EqAdd(s, Mul(lam, lam), x1, x1, p);
    EqTrans(FSub(s, x1, p), s - x1, Mul(lam, lam) - x1, p);
    EqAdd(FSub(s, x1, p), Mul(lam, lam) - x1, x2, x2, p);
    EqTrans(x3, FSub(s, x1, p) - x2, Mul(lam, lam) - x1 - x2, p);
    var d := FSub(x1, x3, p);
    EqMulAt(lam, d, x1 - x3, p);
    EqTrans(FMul(lam, d, p), Mul(lam, d), Mul(lam, x1 - x3), p);
    EqAdd(FMul(lam, d, p), Mul(lam, x1 - x3), y1, y1, p);
    EqTrans(LineY(lam, x1, y1, x3, p), FMul(lam, d, p) - y1, Mul(lam, x1 - x3) - y1, p);
  }

  /** The line of slope F / Z through points whose coordinates, times Z^2 and Z^3, are P1, P2 and Q. */
  lemma LineRep(lam: nat, x1: nat, y1: nat, x2: nat, Z: int, F: int, P1: int, P2: int, Q: int,
                X: int, Y: int, p: nat)
    requires p > 0 && Eq(Mul(lam, Z), F, p)
    requires Eq(Mul(x1, Mul(Z, Z)), P1, p) && Eq(Mul(x2, Mul(Z, Z)), P2, p) && Eq(Mul(y1, Mul(Z, Mul(Z, Z))), Q, p)
    requires Eq(X, Mul(F, F) - P1 - P2, p) && Eq(Y, Mul(F, P1 - X) - Q, p)
    ensures var x3 := LineX(lam, x1, x2, p); Rep(x3, LineY(lam, x1, y1, x3, p), X, Y, Z, p)
  {
    hide Eq, Mul, LineX, LineY;
    var x3 := LineX(lam, x1, x2, p);
    var y3 := LineY(lam, x1, y1, x3, p);
    LineEq(lam, x1, y1, x2, p);
    var z2, z3 := Mul(Z, Z), Mul(Z, Mul(Z, Z));
    LineXRep(lam, x1, x2, x3, Z, F, P1, P2, X, p);
    EqMulAt(z3, y3, Mul(lam, x1 - x3) - y1, p);
    OrdinateForm(lam, x1 - x3, y1, Z);
    MulLess(x1, x3, z2);
    EqAdd(Mul(x1, z2), P1, Mul(x3, z2), X, p);
    EqMul(Mul(lam, Z), F, Mul(x1 - x3, z2), P1 - X, p);
    EqAdd(Mul(Mul(lam, Z), Mul(x1 - x3, z2)), Mul(F, P1 - X), Mul(y1, z3), Q, p);
    EqSym(Y, Mul(F, P1 - X) - Q, p);
    EqTrans(Mul(y3, z3), Mul(Mul(lam, x1 - x3) - y1, z3), Mul(F, P1 - X) - Q, p);
    EqTrans(Mul(y3, z3), Mul(F, P1 - X) - Q, Y, p);
  }

  lemma LineXRep(lam: nat, x1: nat, x2: nat, x3: nat, Z: int, F: int, P1: int, P2: int, X: int, p: nat)
    requires p > 0 && Eq(Mul(lam, Z), F, p) && Eq(x3, Mul(lam, lam) - x1 - x2, p)
    requires Eq(Mul(x1, Mul(Z, Z)), P1, p) && Eq(Mul(x2, Mul(Z, Z)), P2, p)
    requires Eq(X, Mul(F, F) - P1 - P2, p)
    ensures Eq(Mul(x3, Mul(Z, Z)), X, p)
  {
    hide Eq, Mul;
    var z2 := Mul(Z, Z);
    EqMulAt(z2, x3, Mul(lam, lam) - x1 - x2, p);
    AbscissaForm(lam, x1, x2, Z);
    EqPowers(Mul(lam, Z), F, p);
    EqAdd(Mul(Mul(lam, Z), Mul(lam, Z)), Mul(F, F), Mul(x1, z2), P1, p);
    EqAdd(Mul(Mul(lam, Z), Mul(lam, Z)) - Mul(x1, z2), Mul(F, F) - P1, Mul(x2, z2), P2, p);
    EqSym(X, Mul(F, F) - P1 - P2, p);
    EqTrans(Mul(x3, z2), Mul(Mul(lam, lam) - x1 - x2, z2), Mul(F, F) - P1 - P2, p);
    EqTrans(Mul(x3, z2), Mul(F, F) - P1 - P2, X, p);
  }

  lemma AbscissaForm(lam: int, x1: int, x2: int, Z: int)
    ensures Mul(Mul(lam, lam) - x1 - x2, Mul(Z, Z))
      == Mul(Mul(lam, Z), Mul(lam, Z)) - Mul(x1, Mul(Z, Z)) - Mul(x2, Mul(Z, Z))
  {}

  lemma OrdinateForm(lam: int, d: int, y: int, Z: int)
    ensures Mul(Mul(lam, d) - y, Mul(Z, Mul(Z, Z)))
      == Mul(Mul(lam, Z), Mul(d, Mul(Z, Z))) - Mul(y, Mul(Z, Mul(Z, Z)))
  {}

  // ----- the general addition -----

  /** X * W^2 and Y * W^3 as the source computes them are x * u^2 and y * u^3 for u = Z * W. */
  lemma CommonScale(x: int, y: int, X: nat, Y: nat, Z: nat, W: nat, p: nat)
    requires p > 0 && Rep(x, y, X, Y, Z, p)
    ensures var u := Mul(Z, W);
      && Eq(FMul(FMul(W, W, p), X, p), Mul(x, Mul(u, u)), p)
      && Eq(FMul(FMul(FMul(W, W, p), W, p), Y, p), Mul(y, Mul(u, Mul(u, u))), p)
  {
    hide Eq, Mul, FMul;
    var u, w2 := Mul(Z, W), FMul(W, W, p);
    var w3 := FMul(w2, W, p);
    var xz, yz := Mul(x, Mul(Z, Z)), Mul(y, Mul(Z, Mul(Z, Z)));
    EqSym(xz, X, p);
    EqSym(yz, Y, p);
    EqMul(w2, Mul(W, W), X, xz, p);
    EqTrans(FMul(w2, X, p), Mul(w2, X), Mul(Mul(W, W), xz), p);
    EqMulAt(W, w2, Mul(W, W), p);
    EqTrans(w3, Mul(w2, W), Mul(Mul(W, W), W), p);
    EqMul(w3, Mul(Mul(W, W), W), Y, yz, p);
    EqTrans(FMul(w3, Y, p), Mul(w3, Y), Mul(Mul(Mul(W, W), W), yz), p);
    SquareScale(x, Z, W);
    CubeScale(y, Z, W);
  }

  lemma SquareScale(x: int, Z: int, W: int)
    ensures Mul(Mul(W, W), Mul(x, Mul(Z, Z))) == Mul(x, Mul(Mul(Z, W), Mul(Z, W)))
  {}

  lemma CubeScale(y: int, Z: int, W: int)
    ensures Mul(Mul(Mul(W, W), W), Mul(y, Mul(Z, Mul(Z, Z)))) == Mul(y, Mul(Mul(Z, W), Mul(Mul(Z, W), Mul(Z, W))))
  {}

  /** Scaled coordinates are equal exactly when the coordinates are. */
  lemma SameScaled(x: nat, y: nat, c: int, A: nat, C: nat, p: nat)
    requires Prime(p) && !Eq(c, 0, p) && x < p && y < p && A < p && C < p
    requires Eq(A, Mul(x, c), p) && Eq(C, Mul(y, c), p)
    ensures A == C <==> x == y
  {
    hide Eq, Mul;
    EqSym(A, Mul(x, c), p);
    EqSym(C, Mul(y, c), p);
    if A == C { SameMultiple(c, x, y, A, p); }
    if x == y {
      EqTrans(A, Mul(x, c), C, p);
      EqUnique(A, C, p);
    }
  }

  lemma SlopeEq(p1: Pt, p2: Pt, p: nat)
    requires Prime(p) && p1.Pt? && p2.Pt? && On(p1, p) && On(p2, p) && p1.x != p2.x
    ensures Eq(Mul(ChordSlope(p1, p2, p), p2.x - p1.x), p2.y - p1.y, p)
  {
    hide Eq, Mul, FMul, FSub, Prime;
    DifferentX(p1.x, p2.x, p);
    var dx, dy := FSub(p2.x, p1.x, p), FSub(p2.y, p1.y, p);
    var i := Inv(dx, p);
    var lam := FMul(dy, i, p);
    EqSym(dx, p2.x - p1.x, p);
    EqMul(lam, Mul(dy, i), p2.x - p1.x, dx, p);
    QuotientTimes(dy, i, dx, p);
    EqTrans(Mul(lam, p2.x - p1.x), Mul(Mul(dy, i), dx), dy, p);
    EqTrans(Mul(lam, p2.x - p1.x), dy, p2.y - p1.y, p);
  }

  lemma QuotientTimes(n: int, i: int, d: int, p: nat)
    requires p > 0 && Eq(Mul(d, i), 1, p)
    ensures Eq(Mul(Mul(n, i), d), n, p)
  {
    hide Eq;
    UnitFactor(n, Mul(d, i), p);
    assert Mul(Mul(n, i), d) == Mul(n, Mul(d, i));
  }

  /** The slope times the new Z is F, and the scaled coordinates of the first point and abscissa of the
      second one for the new Z. */
  lemma ChordScaled(x1: int, y1: int, x2: int, y2: int, lam: int, u: int,
                    A: int, B: int, C: int, D: int, E: int, F: int, Z: int, p: nat)
    requires p > 0 && Eq(A, Mul(x1, Mul(u, u)), p) && Eq(C, Mul(x2, Mul(u, u)), p)
    requires Eq(B, Mul(y1, Mul(u, Mul(u, u))), p) && Eq(D, Mul(y2, Mul(u, Mul(u, u))), p)
    requires Eq(E, C - A, p) && Eq(F, D - B, p) && Eq(Z, Mul(u, E), p) && Eq(Mul(lam, x2 - x1), y2 - y1, p)
    ensures Eq(Mul(lam, Z), F, p)
    ensures Eq(Mul(x1, Mul(Z, Z)), Mul(A, Mul(E, E)), p) && Eq(Mul(x2, Mul(Z, Z)), Mul(C, Mul(E, E)), p)
    ensures Eq(Mul(y1, Mul(Z, Mul(Z, Z))), Mul(B, Mul(E, Mul(E, E))), p)
  {
    hide Eq, Mul;
    var u2, u3 := Mul(u, u), Mul(u, Mul(u, u));
    SlopeScaled(x1, y1, x2, y2, lam, u, A, B, C, D, E, F, Z, p);
    EqPowers(Z, Mul(u, E), p);
    ScaleAgain(x1, y1, u, E);
    ScaleAgain(x2, y2, u, E);
    ScaledBy(x1, Mul(Z, Z), Mul(Mul(u, E), Mul(u, E)), u2, Mul(E, E), A, p);
    ScaledBy(x2, Mul(Z, Z), Mul(Mul(u, E), Mul(u, E)), u2, Mul(E, E), C, p);
    ScaledBy(y1, Mul(Z, Mul(Z, Z)), Mul(Mul(u, E), Mul(Mul(u, E), Mul(u, E))), u3, Mul(E, Mul(E, E)), B, p);
  }

  lemma ScaleAgain(x: int, y: int, u: int, E: int)
    ensures Mul(x, Mul(Mul(u, E), Mul(u, E))) == Mul(Mul(x, Mul(u, u)), Mul(E, E))
    ensures Mul(y, Mul(Mul(u, E), Mul(Mul(u, E), Mul(u, E)))) == Mul(Mul(y, Mul(u, Mul(u, u))), Mul(E, Mul(E, E)))
  {
    assert (u * E) * (u * E) == (u * u) * (E * E);
    assert (u * E) * ((u * E) * (u * E)) == (u * (u * u)) * (E * (E * E));
    MulAssociative(x, u * u, E * E);
    MulAssociative(y, u * (u * u), E * (E * E));
  }

  lemma ScaledBy(x: int, z: int, ue: int, uk: int, ek: int, A: int, p: nat)
    requires p > 0 && Eq(z, ue, p) && Mul(x, ue) == Mul(Mul(x, uk), ek) && Eq(A, Mul(x, uk), p)
    ensures Eq(Mul(x, z), Mul(A, ek), p)
  {
    hide Eq, Mul;
    EqMulAt(x, z, ue, p);
    EqSym(A, Mul(x, uk), p);
    EqMulAt(ek, Mul(x, uk), A, p);
    EqTrans(Mul(x, z), Mul(x, ue), Mul(A, ek), p);
  }

  lemma SlopeScaled(x1: int, y1: int, x2: int, y2: int, lam: int, u: int,
                    A: int, B: int, C: int, D: int, E: int, F: int, Z: int, p: nat)
    requires p > 0 && Eq(A, Mul(x1, Mul(u, u)), p) && Eq(C, Mul(x2, Mul(u, u)), p)
    requires Eq(B, Mul(y1, Mul(u, Mul(u, u))), p) && Eq(D, Mul(y2, Mul(u, Mul(u, u))), p)
    requires Eq(E, C - A, p) && Eq(F, D - B, p) && Eq(Z, Mul(u, E), p) && Eq(Mul(lam, x2 - x1), y2 - y1, p)
    ensures Eq(Mul(lam, Z), F, p)
  {
    hide Eq, Mul;
    var u2, u3 := Mul(u, u), Mul(u, Mul(u, u));
    EqAdd(C, Mul(x2, u2), A, Mul(x1, u2), p);
    MulLess(x2, x1, u2);
    EqTrans(E, C - A, Mul(x2 - x1, u2), p);
    EqMulAt(u, E, Mul(x2 - x1, u2), p);
    EqTrans(Z, Mul(u, E), Mul(u, Mul(x2 - x1, u2)), p);
    EqMulAt(lam, Z, Mul(u, Mul(x2 - x1, u2)), p);
    Regroup(lam, u, x2 - x1);
    EqMulAt(u3, Mul(lam, x2 - x1), y2 - y1, p);
    EqTrans(Mul(lam, Z), Mul(Mul(lam, x2 - x1), u3), Mul(y2 - y1, u3), p);
    MulLess(y2, y1, u3);
    EqAdd(D, Mul(y2, u3), B, Mul(y1, u3), p);
    EqTrans(F, D - B, Mul(y2 - y1, u3), p);
    EqSym(F, Mul(y2 - y1, u3), p);
    EqTrans(Mul(lam, Z), Mul(y2 - y1, u3), F, p);
  }

  lemma Regroup(lam: int, u: int, d: int)
    ensures Mul(lam, Mul(u, Mul(d, Mul(u, u)))) == Mul(Mul(lam, d), Mul(u, Mul(u, u)))
  {}

  lemma FSubEq(x: nat, u: int, y: nat, v: int, p: nat)
    requires p > 0 && Eq(x, u, p) && Eq(y, v, p)
    ensures Eq(FSub(x, y, p), u - v, p)
  {
    hide Eq, FSub;
    EqAdd(x, u, y, v, p);
    EqTrans(FSub(x, y, p), x - y, u - v, p);
  }

  lemma FAddEq(x: nat, u: int, y: nat, v: int, p: nat)
    requires p > 0 && Eq(x, u, p) && Eq(y, v, p)
    ensures Eq(FAdd(x, y, p), u + v, p)
  {
    hide Eq, FAdd;
    EqAdd(x, u, y, v, p);
    EqTrans(FAdd(x, y, p), x + y, u + v, p);
  }

  lemma FMulEq(x: nat, u: int, y: nat, v: int, p: nat)
    requires p > 0 && Eq(x, u, p) && Eq(y, v, p)
    ensures Eq(FMul(x, y, p), Mul(u, v), p)
  {
    hide Eq, FMul, Mul;
    EqMul(x, u, y, v, p);
    EqTrans(FMul(x, y, p), Mul(x, y), Mul(u, v), p);
  }

  /** The new X and Y of the general addition, from E, F, A and B. */
  function SumC(A: nat, E: nat, p: nat): nat requires p > 0 { FMul(FMul(E, E, p), A, p) }

  function SumD(E: nat, p: nat): nat requires p > 0 { FMul(FMul(E, E, p), E, p) }

  function SumX(A: nat, E: nat, F: nat, p: nat): (r: nat)
    requires p > 0
    ensures r < p
  {
    FSub(FSub(FMul(F, F, p), SumD(E, p), p), FMul(SumC(A, E, p), 2, p), p)
  }

  function SumY(A: nat, B: nat, E: nat, F: nat, p: nat): (r: nat)
    requires p > 0
    ensures r < p
  {
    FSub(FMul(FSub(SumC(A, E, p), SumX(A, E, F, p), p), F, p), FMul(SumD(E, p), B, p), p)
  }

  lemma SumEq(A: nat, B: nat, C: nat, E: nat, F: nat, p: nat)
    requires p > 0 && Eq(E, C - A, p)
    ensures Eq(SumX(A, E, F, p), Mul(F, F) - Mul(A, Mul(E, E)) - Mul(C, Mul(E, E)), p)
    ensures Eq(SumY(A, B, E, F, p),
               Mul(F, Mul(A, Mul(E, E)) - SumX(A, E, F, p)) - Mul(B, Mul(E, Mul(E, E))), p)
  {
    hide Eq, FMul, FSub, Mul;
    var ee, X := Mul(E, E), SumX(A, E, F, p);
    EqSame(A, p);
    EqSame(B, p);
    EqSame(E, p);
    EqSame(F, p);
    EqSame(2, p);
    EqSame(X, p);
    FMulEq(E, E, E, E, p);
    FMulEq(FMul(E, E, p), ee, A, A, p);
    FMulEq(FMul(E, E, p), ee, E, E, p);
    FMulEq(F, F, F, F, p);
    FMulEq(SumC(A, E, p), Mul(ee, A), 2, 2, p);
    FSubEq(FMul(F, F, p), Mul(F, F), SumD(E, p), Mul(ee, E), p);
    FSubEq(FSub(FMul(F, F, p), SumD(E, p), p), Mul(F, F) - Mul(ee, E), FMul(SumC(A, E, p), 2, p), Mul(Mul(ee, A), 2), p);
    EqAdd(E, C - A, A, A, p);
    EqMulAt(ee, E + A, C, p);
    SumForms(A, B, E, ee);
    EqSame(Mul(F, F) - Mul(A, ee), p);
    EqAdd(Mul(F, F) - Mul(A, ee), Mul(F, F) - Mul(A, ee), Mul(E + A, ee), Mul(C, ee), p);
    EqTrans(X, Mul(F, F) - Mul(A, ee) - Mul(E + A, ee), Mul(F, F) - Mul(A, ee) - Mul(C, ee), p);
    FSubEq(SumC(A, E, p), Mul(A, ee), X, X, p);
    FMulEq(FSub(SumC(A, E, p), X, p), Mul(A, ee) - X, F, F, p);
    MulCommutes(F, Mul(A, ee) - X);
    FMulEq(SumD(E, p), Mul(E, ee), B, B, p);
    MulCommutes(B, Mul(E, ee));
    FSubEq(FMul(FSub(SumC(A, E, p), X, p), F, p), Mul(F, Mul(A, ee) - X), FMul(SumD(E, p), B, p), Mul(B, Mul(E, ee)), p);
  }

  lemma SumForms(A: int, B: int, E: int, ee: int)
    ensures Mul(ee, A) == Mul(A, ee) && Mul(ee, E) == Mul(E, ee) && Mul(Mul(ee, A), 2) == Mul(A, ee) + Mul(A, ee)
    ensures Mul(E + A, ee) == Mul(E, ee) + Mul(A, ee)
  {
    Distribute(ee, E, A);
  }

  /** The general addition agrees with the chord. */
  lemma SumIsChord(X1: nat, Y1: nat, Z1: nat, X2: nat, Y2: nat, Z2: nat,
                   A: nat, B: nat, C: nat, D: nat, c: Curve)
    requires c.Valid() && 0 < Z1 < c.p && 0 < Z2 < c.p
    requires A == FMul(FMul(Z2, Z2, c.p), X1, c.p) && B == FMul(FMul(FMul(Z2, Z2, c.p), Z2, c.p), Y1, c.p)
    requires C == FMul(FMul(Z1, Z1, c.p), X2, c.p) && D == FMul(FMul(FMul(Z1, Z1, c.p), Z1, c.p), Y2, c.p)
    ensures var p1, p2 := Affine(X1, Y1, Z1, c.p), Affine(X2, Y2, Z2, c.p);
      && p1.Pt? && p2.Pt? && (A == C <==> p1.x == p2.x) && (B == D <==> p1.y == p2.y)
    ensures A != C ==>
      var E, F := FSub(C, A, c.p), FSub(D, B, c.p);
      Affine(SumX(A, E, F, c.p), SumY(A, B, E, F, c.p), FMul(FMul(E, Z1, c.p), Z2, c.p), c.p)
        == ECAdd(Affine(X1, Y1, Z1, c.p), Affine(X2, Y2, Z2, c.p), c)
  {
    hide Eq, Mul, FMul, FSub, Affine, SumX, SumY, LineX, LineY, ChordSlope, Prime, Rep;
    var p := c.p;
    var p1, p2 := Affine(X1, Y1, Z1, p), Affine(X2, Y2, Z2, p);
    var u := Mul(Z1, Z2);
    AffineRep(X1, Y1, Z1, p);
    AffineRep(X2, Y2, Z2, p);
    CommonScale(p1.x, p1.y, X1, Y1, Z1, Z2, p);
    CommonScale(p2.x, p2.y, X2, Y2, Z2, Z1, p);
    MulCommutes(Z1, Z2);
    NonZero(Z1, p);
    NonZero(Z2, p);
    NonZeroProduct(Z1, Z2, p);
    NonZeroProduct(u, u, p);
    NonZeroProduct(u, Mul(u, u), p);
    SameScaled(p1.x, p2.x, Mul(u, u), A, C, p);
    SameScaled(p1.y, p2.y, Mul(u, Mul(u, u)), B, D, p);
    if A != C { SumLine(p1, p2, Z1, Z2, A, B, C, D, p); }
  }

  lemma SumLine(p1: Pt, p2: Pt, Z1: nat, Z2: nat, A: nat, B: nat, C: nat, D: nat, p: nat)
    requires Prime(p) && p1.Pt? && p2.Pt? && On(p1, p) && On(p2, p) && 0 < Z1 < p && 0 < Z2 < p
    requires A < p && C < p && A != C && p1.x != p2.x
    requires var u := Mul(Z1, Z2);
      && Eq(A, Mul(p1.x, Mul(u, u)), p) && Eq(C, Mul(p2.x, Mul(u, u)), p)
      && Eq(B, Mul(p1.y, Mul(u, Mul(u, u))), p) && Eq(D, Mul(p2.y, Mul(u, Mul(u, u))), p)
    ensures var E, F := FSub(C, A, p), FSub(D, B, p);
      Affine(SumX(A, E, F, p), SumY(A, B, E, F, p), FMul(FMul(E, Z1, p), Z2, p), p)
        == Line(ChordSlope(p1, p2, p), p1, p2, p)
  {
    hide Eq, Mul, FMul, FSub, Affine, SumX, SumY, LineX, LineY, ChordSlope, Prime;
    var u, E, F := Mul(Z1, Z2), FSub(C, A, p), FSub(D, B, p);
    var lam, Z := ChordSlope(p1, p2, p), FMul(FMul(E, Z1, p), Z2, p);
    SlopeEq(p1, p2, p);
    NewZ(E, Z1, Z2, p);
    DifferentX(A, C, p);
    ZNonZero(E, Z1, Z2, Z, p);
    ChordScaled(p1.x, p1.y, p2.x, p2.y, lam, u, A, B, C, D, E, F, Z, p);
    SumEq(A, B, C, E, F, p);
    LineRep(lam, p1.x, p1.y, p2.x, Z, F, Mul(A, Mul(E, E)), Mul(C, Mul(E, E)), Mul(B, Mul(E, Mul(E, E))),
            SumX(A, E, F, p), SumY(A, B, E, F, p), p);
    var x3 := LineX(lam, p1.x, p2.x, p);
    RepAffine(x3, LineY(lam, p1.x, p1.y, x3, p), SumX(A, E, F, p), SumY(A, B, E, F, p), Z, p);
  }

  lemma NewZ(E: nat, Z1: nat, Z2: nat, p: nat)
    requires p > 0
    ensures Eq(FMul(FMul(E, Z1, p), Z2, p), Mul(Mul(Z1, Z2), E), p)
  {
    hide Eq, FMul;
    EqSame(E, p);
    EqSame(Z1, p);
    EqSame(Z2, p);
    FMulEq(E, E, Z1, Z1, p);
    FMulEq(FMul(E, Z1, p), Mul(E, Z1), Z2, Z2, p);
    assert Mul(Mul(E, Z1), Z2) == Mul(Mul(Z1, Z2), E);
  }

  lemma ZNonZero(E: nat, Z1: nat, Z2: nat, Z: nat, p: nat)
    requires Prime(p) && 0 < Z1 < p && 0 < Z2 < p && !Eq(E, 0, p) && Eq(Z, Mul(Mul(Z1, Z2), E), p)
    ensures Z > 0
  {
    hide Eq, Mul;
    NonZero(Z1, p);
    NonZero(Z2, p);
    NonZeroProduct(Z1, Z2, p);
    NonZeroProduct(Mul(Z1, Z2), E, p);
    if Z == 0 { EqSym(0, Mul(Mul(Z1, Z2), E), p); }
  }

  // ----- doubling -----

  lemma TangentEq(pt: Pt, c: Curve)
    requires c.Valid() && pt.Pt? && On(pt, c.p) && pt.y > 0
    ensures Eq(Mul(TangentSlope(pt, c), Mul(2, pt.y)), 3 * Mul(pt.x, pt.x) + c.a, c.p)
  {
    hide Eq, Mul, FMul, FAdd, Prime;
    var p, x, y := c.p, pt.x, pt.y;
    DoubleNonZero(y, p);
    var n, d := FAdd(FMul(FMul(x, x, p), 3, p), c.a, p), FMul(y, 2, p);
    var i := Inv(d, p);
    var lam := FMul(n, i, p);
    EqSym(d, Mul(y, 2), p);
    MulCommutes(y, 2);
    EqMul(lam, Mul(n, i), Mul(2, y), d, p);
    QuotientTimes(n, i, d, p);
    EqTrans(Mul(lam, Mul(2, y)), Mul(Mul(n, i), d), n, p);
    EqSame(x, p);
    EqSame(3, p);
    EqSame(c.a, p);
    FMulEq(x, x, x, x, p);
    FMulEq(FMul(x, x, p), Mul(x, x), 3, 3, p);
    MulIs(Mul(x, x), 3);
    FAddEq(FMul(FMul(x, x, p), 3, p), 3 * Mul(x, x), c.a, c.a, p);
    EqTrans(Mul(lam, Mul(2, y)), n, 3 * Mul(x, x) + c.a, p);
  }

  lemma ShortcutSlope(x: nat, z: nat, c: Curve)
    requires c.Valid() && c.am3
    ensures var zz := FMul(z, z, c.p);
      Eq(FMul(FMul(FSub(x, zz, c.p), FAdd(zz, x, c.p), c.p), 3, c.p),
         3 * Mul(x, x) + Mul(c.a, Mul(Mul(z, z), Mul(z, z))), c.p)
  {
    hide Eq, Mul, FMul, FSub, FAdd, Prime;
    var p, zz, w := c.p, FMul(z, z, c.p), Mul(z, z);
    EqSame(x, p);
    EqSame(z, p);
    EqSame(3, p);
    FMulEq(z, z, z, z, p);
    FSubEq(x, x, zz, w, p);
    FAddEq(zz, w, x, x, p);
    FMulEq(FSub(x, zz, p), x - w, FAdd(zz, x, p), w + x, p);
    FMulEq(FMul(FSub(x, zz, p), FAdd(zz, x, p), p), Mul(x - w, w + x), 3, 3, p);
    DifferenceOfSquares(x, w);
    EqSym(c.a, -3, p);
    EqMulAt(Mul(w, w), -3, c.a, p);
    EqSame(3 * Mul(x, x), p);
    EqAdd(3 * Mul(x, x), 3 * Mul(x, x), Mul(-3, Mul(w, w)), Mul(c.a, Mul(w, w)), p);
    EqTrans(FMul(FMul(FSub(x, zz, p), FAdd(zz, x, p), p), 3, p), Mul(Mul(x - w, w + x), 3),
            3 * Mul(x, x) + Mul(c.a, Mul(w, w)), p);
  }

  lemma DifferenceOfSquares(x: int, w: int)
    ensures Mul(Mul(x - w, w + x), 3) == 3 * Mul(x, x) + Mul(-3, Mul(w, w))
  {
    assert (x - w) * (w + x) == x * x - w * w;
  }

  lemma FourthPower(z: nat)
    ensures Exp(z, 4) == Mul(Mul(z, z), Mul(z, z))
  {
    assert Exp(z, 0) == 1 && Exp(z, 1) == z && Exp(z, 2) == z * z;
    assert Exp(z, 4) == z * (z * Exp(z, 2));
    MulAssociative(z, z, z * z);
  }

  lemma GeneralSlope(x: nat, z: nat, c: Curve)
    requires c.Valid()
    ensures var t := FMul(FMul(x, x, c.p), 3, c.p);
      Eq(if c.a != 0 then FAdd(t, FMul(Exp(z, 4) % c.p, c.a, c.p), c.p) else t,
         3 * Mul(x, x) + Mul(c.a, Mul(Mul(z, z), Mul(z, z))), c.p)
  {
    hide Eq, Mul, FMul, FAdd, Prime, Exp;
    var p, w := c.p, Mul(z, z);
    EqSame(x, p);
    EqSame(3, p);
    EqSame(c.a, p);
    FMulEq(x, x, x, x, p);
    FMulEq(FMul(x, x, p), Mul(x, x), 3, 3, p);
    MulIs(Mul(x, x), 3);
    FourthPower(z);
    EqMod(Exp(z, 4), p);
    FMulEq(Exp(z, 4) % p, Mul(w, w), c.a, c.a, p);
    MulCommutes(c.a, Mul(w, w));
    MulZero(Mul(w, w));
    FAddEq(FMul(FMul(x, x, p), 3, p), 3 * Mul(x, x), FMul(Exp(z, 4) % p, c.a, p), Mul(c.a, Mul(w, w)), p);
  }

  /** The ordinates are zero together. */
  lemma ZeroOrdinate(x: nat, y: nat, z: nat, p: nat)
    requires Prime(p) && 0 < z < p && y < p
    ensures Affine(x, y, z, p).Pt? && (Affine(x, y, z, p).y == 0 <==> y == 0)
  {
    hide Eq, Mul, Affine;
    AffineRep(x, y, z, p);
    NonZero(z, p);
    NonZeroProduct(z, z, p);
    NonZeroProduct(z, Mul(z, z), p);
    EqSame(0, p);
    var c, ay := Mul(z, Mul(z, z)), Affine(x, y, z, p).y;
    ZeroTimes(c);
    if y == 0 { SameMultiple(c, ay, 0, 0, p); }
    if ay == 0 {
      EqSym(Mul(0, c), y, p);
      EqUnique(y, 0, p);
    }
  }

  lemma ZeroTimes(c: int)
    ensures Mul(0, c) == 0
  {}

  /** The slope times the new Z, and the scaled coordinates of the doubled point. */
  lemma TangentScaled(x1: nat, y1: nat, lam: nat, X: nat, Y: nat, Z: nat, Z3: nat, M: nat, S: nat, h: nat, c: Curve)
    requires c.Valid() && Rep(x1, y1, X, Y, Z, c.p)
    requires Eq(Mul(lam, Mul(2, y1)), 3 * Mul(x1, x1) + c.a, c.p)
    requires Eq(M, 3 * Mul(X, X) + Mul(c.a, Mul(Mul(Z, Z), Mul(Z, Z))), c.p)
    requires var t := Mul(2, Y);
      Eq(Z3, Mul(Z, t), c.p) && Eq(S, Mul(X, Mul(t, t)), c.p) && Eq(2 * h, Mul(Mul(t, t), Mul(t, t)), c.p)
    ensures Eq(Mul(lam, Z3), M, c.p) && Eq(Mul(x1, Mul(Z3, Z3)), S, c.p) && Eq(Mul(y1, Mul(Z3, Mul(Z3, Z3))), h, c.p)
  {
    hide Eq, Mul, Prime;
    var p, t := c.p, Mul(2, Y);
    TangentSlopeScaled(x1, y1, lam, X, Y, Z, Z3, M, c);
    EqPowers(Z3, Mul(Z, t), p);
    ScaleAgain(x1, y1, Z, t);
    EqSym(Mul(x1, Mul(Z, Z)), X, p);
    EqSym(Mul(y1, Mul(Z, Mul(Z, Z))), Y, p);
    ScaledBy(x1, Mul(Z3, Z3), Mul(Mul(Z, t), Mul(Z, t)), Mul(Z, Z), Mul(t, t), X, p);
    ScaledBy(y1, Mul(Z3, Mul(Z3, Z3)), Mul(Mul(Z, t), Mul(Mul(Z, t), Mul(Z, t))), Mul(Z, Mul(Z, Z)), Mul(t, Mul(t, t)), Y, p);
    EqSym(S, Mul(X, Mul(t, t)), p);
    EqTrans(Mul(x1, Mul(Z3, Z3)), Mul(X, Mul(t, t)), S, p);
    HalfOfFourth(Y, t, h, p);
    EqTrans(Mul(y1, Mul(Z3, Mul(Z3, Z3))), Mul(Y, Mul(t, Mul(t, t))), h, p);
  }

  /** Half of (2Y)^4 is Y (2Y)^3. */
  lemma HalfOfFourth(Y: int, t: int, h: int, p: nat)
    requires Prime(p) && p > 3 && t == Mul(2, Y) && Eq(2 * h, Mul(Mul(t, t), Mul(t, t)), p)
    ensures Eq(Mul(Y, Mul(t, Mul(t, t))), h, p)
  {
    hide Eq, Mul;
    PrimeOdd(p);
    MulIs(2, h);
    FourthForm(Y);
    EqSym(2 * h, Mul(Mul(t, t), Mul(t, t)), p);
    Cancel(2, Mul(Y, Mul(t, Mul(t, t))), h, p);
  }

  lemma FourthForm(Y: int)
    ensures var t := Mul(2, Y); Mul(Mul(t, t), Mul(t, t)) == Mul(2, Mul(Y, Mul(t, Mul(t, t))))
  {
    var t := Mul(2, Y);
    MulAssociative(t, t, t * t);
    MulAssociative(2, Y, t * (t * t));
  }

  lemma TangentSlopeScaled(x1: nat, y1: nat, lam: nat, X: nat, Y: nat, Z: nat, Z3: nat, M: nat, c: Curve)
    requires c.Valid() && Rep(x1, y1, X, Y, Z, c.p) && Eq(Z3, Mul(Z, Mul(2, Y)), c.p)
    requires Eq(Mul(lam, Mul(2, y1)), 3 * Mul(x1, x1) + c.a, c.p)
    requires Eq(M, 3 * Mul(X, X) + Mul(c.a, Mul(Mul(Z, Z), Mul(Z, Z))), c.p)
    ensures Eq(Mul(lam, Z3), M, c.p)
  {
    hide Eq, Mul, Prime;
    var p, w := c.p, Mul(Z, Z);
    var z3, z4 := Mul(Z, w), Mul(w, w);
    EqSym(Mul(y1, z3), Y, p);
    EqMulAt(2, Y, Mul(y1, z3), p);
    EqMulAt(Z, Mul(2, Y), Mul(2, Mul(y1, z3)), p);
    EqTrans(Z3, Mul(Z, Mul(2, Y)), Mul(Z, Mul(2, Mul(y1, z3))), p);
    EqMulAt(lam, Z3, Mul(Z, Mul(2, Mul(y1, z3))), p);
    RegroupTangent(lam, y1, Z);
    EqMulAt(z4, Mul(lam, Mul(2, y1)), 3 * Mul(x1, x1) + c.a, p);
    EqTrans(Mul(lam, Z3), Mul(Mul(lam, Mul(2, y1)), z4), Mul(3 * Mul(x1, x1) + c.a, z4), p);
    SlopeForm(x1, c.a, w);
    EqPowers(Mul(x1, w), X, p);
    EqMulAt(3, Mul(Mul(x1, w), Mul(x1, w)), Mul(X, X), p);
    MulIs(3, Mul(X, X));
    EqSame(Mul(c.a, z4), p);
    EqAdd(Mul(3, Mul(Mul(x1, w), Mul(x1, w))), 3 * Mul(X, X), Mul(c.a, z4), Mul(c.a, z4), p);
    EqSym(M, 3 * Mul(X, X) + Mul(c.a, z4), p);
    EqTrans(Mul(lam, Z3), Mul(3 * Mul(x1, x1) + c.a, z4), 3 * Mul(X, X) + Mul(c.a, z4), p);
    EqTrans(Mul(lam, Z3), 3 * Mul(X, X) + Mul(c.a, z4), M, p);
  }

  lemma RegroupTangent(lam: int, y: int, Z: int)
    ensures Mul(lam, Mul(Z, Mul(2, Mul(y, Mul(Z, Mul(Z, Z)))))) == Mul(Mul(lam, Mul(2, y)), Mul(Mul(Z, Z), Mul(Z, Z)))
  {}

  lemma SlopeForm(x: int, a: int, w: int)
    ensures Mul(3 * Mul(x, x) + a, Mul(w, w)) == Mul(3, Mul(Mul(x, w), Mul(x, w))) + Mul(a, Mul(w, w))
  {}

  function DoubleX(M: nat, S: nat, p: nat): (r: nat)
    requires p > 0
    ensures r < p
  {
    FSub(FSub(FMul(M, M, p), S, p), S, p)
  }

  function DoubleY(M: nat, S: nat, h: nat, p: nat): (r: nat)
    requires p > 0
    ensures r < p
  {
    FSub(FMul(FSub(S, DoubleX(M, S, p), p), M, p), h, p)
  }

  lemma DoubleEq(M: nat, S: nat, h: nat, p: nat)
    requires p > 0
    ensures Eq(DoubleX(M, S, p), Mul(M, M) - S - S, p)
    ensures Eq(DoubleY(M, S, h, p), Mul(M, S - DoubleX(M, S, p)) - h, p)
  {
    hide Eq, Mul, FMul, FSub;
    var X := DoubleX(M, S, p);
    EqSame(M, p);
    EqSame(S, p);
    EqSame(h, p);
    EqSame(X, p);
    FMulEq(M, M, M, M, p);
    FSubEq(FMul(M, M, p), Mul(M, M), S, S, p);
    FSubEq(FSub(FMul(M, M, p), S, p), Mul(M, M) - S, S, S, p);
    FSubEq(S, S, X, X, p);
    FMulEq(FSub(S, X, p), S - X, M, M, p);
    MulCommutes(M, S - X);
    FSubEq(FMul(FSub(S, X, p), M, p), Mul(M, S - X), h, h, p);
  }

  /** The doubling agrees with the tangent. */
  lemma DoubleIsTangent(X: nat, Y: nat, Z: nat, M: nat, c: Curve)
    requires c.Valid() && X < c.p && 0 < Y < c.p && 0 < Z < c.p
    requires Eq(M, 3 * Mul(X, X) + Mul(c.a, Mul(Mul(Z, Z), Mul(Z, Z))), c.p)
    ensures c.p % 2 == 1
    ensures var t := FMul(Y, 2, c.p);
      var t2 := FMul(t, t, c.p);
      var S, h := FMul(X, t2, c.p), FHalf(FMul(t2, t2, c.p), c.p);
      var pt := Affine(X, Y, Z, c.p);
      Affine(DoubleX(M, S, c.p), DoubleY(M, S, h, c.p), FMul(Z, t, c.p), c.p) == ECAdd(pt, pt, c)
  {
    hide Eq, Mul, FMul, FSub, FHalf, Affine, DoubleX, DoubleY, LineX, LineY, TangentSlope, Prime, Rep;
    var p := c.p;
    PrimeOdd(p);
    AffineRep(X, Y, Z, p);
    ZeroOrdinate(X, Y, Z, p);
    var pt := Affine(X, Y, Z, p);
    var lam := TangentSlope(pt, c);
    TangentEq(pt, c);
    var t := FMul(Y, 2, p);
    var t2 := FMul(t, t, p);
    var S, h, Z3 := FMul(X, t2, p), FHalf(FMul(t2, t2, p), p), FMul(Z, t, p);
    DoubleParts(X, Y, Z, p);
    TangentScaled(pt.x, pt.y, lam, X, Y, Z, Z3, M, S, h, c);
    DoubleEq(M, S, h, p);
    LineRep(lam, pt.x, pt.y, pt.x, Z3, M, S, S, h, DoubleX(M, S, p), DoubleY(M, S, h, p), p);
    var x3 := LineX(lam, pt.x, pt.x, p);
    RepAffine(x3, LineY(lam, pt.x, pt.y, x3, p), DoubleX(M, S, p), DoubleY(M, S, h, p), Z3, p);
  }

  lemma DoubleParts(X: nat, Y: nat, Z: nat, p: nat)
    requires Prime(p) && p > 3 && p % 2 == 1 && 0 < Y < p && 0 < Z < p
    ensures var t, u := FMul(Y, 2, p), Mul(2, Y);
      var t2 := FMul(t, t, p);
      && Eq(FMul(Z, t, p), Mul(Z, u), p) && FMul(Z, t, p) > 0
      && Eq(FMul(X, t2, p), Mul(X, Mul(u, u)), p)
      && Eq(2 * FHalf(FMul(t2, t2, p), p), Mul(Mul(u, u), Mul(u, u)), p)
  {
    hide Eq, Mul, FMul, FHalf, Prime;
    var t, u := FMul(Y, 2, p), Mul(2, Y);
    var t2 := FMul(t, t, p);
    var t4 := FMul(t2, t2, p);
    MulCommutes(Y, 2);
    EqSame(X, p);
    EqSame(Z, p);
    FMulEq(t, u, t, u, p);
    FMulEq(Z, Z, t, u, p);
    FMulEq(X, X, t2, Mul(u, u), p);
    FMulEq(t2, Mul(u, u), t2, Mul(u, u), p);
    EqTrans(2 * FHalf(t4, p), t4, Mul(Mul(u, u), Mul(u, u)), p);
    DoubleNonZero(Y, p);
    NonZero(Z, p);
    NonZeroProduct(Z, u, p);
    if FMul(Z, t, p) == 0 { EqSym(0, Mul(Z, u), p); }
  }

  lemma AffineZero(x: nat, y: nat, p: nat)
    requires Prime(p)
    ensures Affine(x, y, 0, p) == Infinity
  {}

  lemma AffineFinite(x: nat, y: nat, z: nat, p: nat)
    requires Prime(p) && z < p
    ensures Affine(x, y, z, p).Infinity? <==> z == 0
  {}
}
