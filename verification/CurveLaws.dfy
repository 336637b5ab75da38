/** What chord and tangent are for: sums of curve points are curve points, in either order. */
module CurveLaws {
  import opened Numbers
  import opened Bits
  import opened ModInverse
  import opened Field
  import opened Jacobian

  /** x^3 + ax + b. */
  function Cubic(x: int, a: int, b: int): int { Mul(x, Mul(x, x)) + Mul(a, x) + b }

  /** The point lies on the curve y^2 = x^3 + ax + b. */
  predicate OnCurve(pt: Pt, c: Curve, b: int)
    requires c.p > 0
  {
    pt.Pt? ==> Eq(Mul(pt.y, pt.y), Cubic(pt.x, c.a, b), c.p)
  }

  /** The ordinate, at distance d from x1, of the line of slope l through (x1, y1). */
  function Ordinate(d: int, y1: int, l: int): int { Mul(l, d) + y1 }

  /** The cubic less the square of the line, at x1 + d. */
  function Gap(d: int, x1: int, y1: int, l: int, a: int, b: int): int
  {
    Cubic(x1 + d, a, b) - Mul(Ordinate(d, y1, l), Ordinate(d, y1, l))
  }

  // ----- the gap is a cubic in d -----

  lemma LineSquare(d: int, y1: int, l: int)
    ensures Mul(Ordinate(d, y1, l), Ordinate(d, y1, l))
      == Mul(Mul(l, l), Mul(d, d)) + Mul(2 * Mul(l, y1), d) + Mul(y1, y1)
  {
    var u := l * d;
    assert (u + y1) * (u + y1) == u * u + 2 * (u * y1) + y1 * y1;
    assert u * u == (l * l) * (d * d);
    assert u * y1 == (l * y1) * d;
  }

  lemma CubicShift(x1: int, d: int, a: int, b: int)
    ensures Cubic(x1 + d, a, b)
      == Cubic(x1, a, b) + Mul(3 * Mul(x1, x1) + a, d) + Mul(3 * x1, Mul(d, d)) + Mul(d, Mul(d, d))
  {
    var x := x1 + d;
    assert x * x == x1 * x1 + 2 * (x1 * d) + d * d;
    assert x * (x * x) == x1 * (x1 * x1 + 2 * (x1 * d) + d * d) + d * (x1 * x1 + 2 * (x1 * d) + d * d);
    assert x1 * (x1 * d) == (x1 * x1) * d && d * (x1 * d) == x1 * (d * d);
  }

  lemma GapForm(d: int, x1: int, y1: int, l: int, a: int, b: int)
    ensures Gap(d, x1, y1, l, a, b) == Cubic(x1, a, b) - Mul(y1, y1)
      + Mul(3 * Mul(x1, x1) + a - 2 * Mul(l, y1), d) + Mul(3 * x1 - Mul(l, l), Mul(d, d)) + Mul(d, Mul(d, d))
  {
    hide Mul, Cubic, Ordinate;
    LineSquare(d, y1, l);
    CubicShift(x1, d, a, b);
    MulLess(3 * Mul(x1, x1) + a, 2 * Mul(l, y1), d);
    MulLess(3 * x1, Mul(l, l), Mul(d, d));
  }

  /** The third meeting of the chord with the curve. */
  lemma ChordGap(d2: int, d3: int, x1: int, y1: int, l: int, a: int, b: int)
    requires Mul(l, l) == 3 * x1 + d2 + d3
    ensures Mul(d2, Gap(d3, x1, y1, l, a, b))
      == Mul(d2 - d3, Cubic(x1, a, b) - Mul(y1, y1)) + Mul(d3, Gap(d2, x1, y1, l, a, b))
  {
    hide Mul, Cubic, Gap;
    GapForm(d2, x1, y1, l, a, b);
    GapForm(d3, x1, y1, l, a, b);
    Dependent(d2, d3, Cubic(x1, a, b) - Mul(y1, y1), 3 * Mul(x1, x1) + a - 2 * Mul(l, y1));
  }

  /** g + cd - (d2 + d3)d^2 + d^3, at d2 and at d3. */
  lemma Dependent(d2: int, d3: int, g: int, c: int)
    ensures Mul(d2, g + Mul(c, d3) + Mul(-d2 - d3, Mul(d3, d3)) + Mul(d3, Mul(d3, d3)))
      == Mul(d2 - d3, g) + Mul(d3, g + Mul(c, d2) + Mul(-d2 - d3, Mul(d2, d2)) + Mul(d2, Mul(d2, d2)))
  {
    assert (-d2 - d3) * (d3 * d3) + d3 * (d3 * d3) == -(d2 * (d3 * d3));
    assert (-d2 - d3) * (d2 * d2) + d2 * (d2 * d2) == -(d3 * (d2 * d2));
    assert d2 * (g + c * d3 - d2 * (d3 * d3)) == d2 * g + c * (d2 * d3) - (d2 * d2) * (d3 * d3);
    assert d3 * (g + c * d2 - d3 * (d2 * d2)) == d3 * g + c * (d2 * d3) - (d2 * d2) * (d3 * d3);
  }

  /** The second meeting of the tangent with the curve. */
  lemma TangentGap(d: int, x1: int, y1: int, l: int, a: int, b: int)
    requires Mul(l, l) == 3 * x1 + d
    ensures Gap(d, x1, y1, l, a, b)
      == Cubic(x1, a, b) - Mul(y1, y1) + Mul(3 * Mul(x1, x1) + a - 2 * Mul(l, y1), d)
  {
    hide Mul, Cubic, Gap;
    GapForm(d, x1, y1, l, a, b);
    CubeCancels(d);
  }

  lemma CubeCancels(d: int)
    ensures Mul(-d, Mul(d, d)) + Mul(d, Mul(d, d)) == 0
  {}

  // ----- closure -----

  lemma EqCubic(x: int, u: int, a: int, b: int, p: nat)
    requires p > 0 && Eq(x, u, p)
    ensures Eq(Cubic(x, a, b), Cubic(u, a, b), p)
  {
    hide Eq, Mul;
    EqPowers(x, u, p);
    EqMulAt(a, x, u, p);
    EqSame(b, p);
    EqAdd(Mul(x, Mul(x, x)), Mul(u, Mul(u, u)), Mul(a, x), Mul(a, u), p);
    EqAdd(Mul(x, Mul(x, x)) + Mul(a, x), Mul(u, Mul(u, u)) + Mul(a, u), b, b, p);
  }

  lemma EqShift(x: int, y: int, d: int, p: nat)
    requires p > 0 && x - y == d
    ensures Eq(x, y, p) <==> Eq(d, 0, p)
  {}

  /** Where the gap vanishes, the line's point is on the curve. */
  lemma ThirdOnCurve(lam: nat, x1: nat, y1: nat, x2: nat, d3: int, c: Curve, b: int)
    requires c.p > 0 && d3 == Mul(lam, lam) - 2 * x1 - x2
    requires Eq(Gap(d3, x1, y1, lam, c.a, b), 0, c.p)
    ensures var x3 := LineX(lam, x1, x2, c.p); OnCurve(Pt(x3, LineY(lam, x1, y1, x3, c.p)), c, b)
  {
    hide Eq, Mul, LineX, LineY, Cubic;
    var p := c.p;
    var x3 := LineX(lam, x1, x2, p);
    var y3 := LineY(lam, x1, y1, x3, p);
    var o := Ordinate(d3, y1, lam);
    LineEq(lam, x1, y1, x2, p);
    EqCubic(x3, x1 + d3, c.a, b, p);
    EqShift(Cubic(x1 + d3, c.a, b), Mul(o, o), Gap(d3, x1, y1, lam, c.a, b), p);
    EqTrans(Cubic(x3, c.a, b), Cubic(x1 + d3, c.a, b), Mul(o, o), p);
    EqSame(x1, p);
    EqAdd(x1, x1, x3, x1 + d3, p);
    EqMulAt(lam, x1 - x3, -d3, p);
    EqSame(y1, p);
    EqAdd(Mul(lam, x1 - x3), Mul(lam, -d3), y1, y1, p);
    NegateOrdinate(lam, d3, y1);
    EqTrans(y3, Mul(lam, x1 - x3) - y1, -o, p);
    EqPowers(y3, -o, p);
    EqSym(Cubic(x3, c.a, b), Mul(o, o), p);
    EqTrans(Mul(y3, y3), Mul(o, o), Cubic(x3, c.a, b), p);
  }

  lemma NegateOrdinate(l: int, d: int, y: int)
    ensures Mul(l, -d) - y == -Ordinate(d, y, l)
    ensures Mul(-Ordinate(d, y, l), -Ordinate(d, y, l)) == Mul(Ordinate(d, y, l), Ordinate(d, y, l))
  {}

  lemma ChordOnCurve(p1: Pt, p2: Pt, c: Curve, b: int)
    requires c.Valid() && p1.Pt? && p2.Pt? && On(p1, c.p) && On(p2, c.p) && p1.x != p2.x
    requires OnCurve(p1, c, b) && OnCurve(p2, c, b)
    ensures OnCurve(Line(ChordSlope(p1, p2, c.p), p1, p2, c.p), c, b)
  {
    hide Eq, Mul, LineX, LineY, Cubic, ChordSlope, Prime, Gap;
    var p, x1: int, y1, x2: int, y2 := c.p, p1.x, p1.y, p2.x, p2.y;
    var lam := ChordSlope(p1, p2, p);
    var d2, d3 := x2 - x1, Mul(lam, lam) - 2 * x1 - x2;
    var g1, g2, g3 := Cubic(x1, c.a, b) - Mul(y1, y1), Gap(d2, x1, y1, lam, c.a, b), Gap(d3, x1, y1, lam, c.a, b);
    SlopeEq(p1, p2, p);
    EqSym(Mul(y1, y1), Cubic(x1, c.a, b), p);
    EqShift(Cubic(x1, c.a, b), Mul(y1, y1), g1, p);
    ChordEnd(x1, y1, x2, y2, lam, c, b);
    ChordGap(d2, d3, x1, y1, lam, c.a, b);
    ZeroMultiples(d2 - d3, g1, d3, g2, p);
    DifferentX(x1, x2, p);
    MulZero(d2);
    Cancel(d2, g3, 0, p);
    ThirdOnCurve(lam, x1, y1, x2, d3, c, b);
  }

  /** The chord meets the curve at its other end. */
  lemma ChordEnd(x1: nat, y1: nat, x2: nat, y2: nat, lam: nat, c: Curve, b: int)
    requires c.p > 0 && OnCurve(Pt(x2, y2), c, b) && Eq(Mul(lam, x2 - x1), y2 - y1, c.p)
    ensures Eq(Gap(x2 - x1, x1, y1, lam, c.a, b), 0, c.p)
  {
    hide Eq, Mul, Cubic;
    var o := Ordinate(x2 - x1, y1, lam);
    EqSame(y1, c.p);
    EqAdd(Mul(lam, x2 - x1), y2 - y1, y1, y1, c.p);
    EqPowers(o, y2, c.p);
    EqTrans(Mul(o, o), Mul(y2, y2), Cubic(x2, c.a, b), c.p);
    EqSym(Mul(o, o), Cubic(x2, c.a, b), c.p);
    EqShift(Cubic(x2, c.a, b), Mul(o, o), Gap(x2 - x1, x1, y1, lam, c.a, b), c.p);
  }

  lemma ZeroMultiples(s: int, x: int, t: int, y: int, p: nat)
    requires p > 0 && Eq(x, 0, p) && Eq(y, 0, p)
    ensures Eq(Mul(s, x) + Mul(t, y), 0, p)
  {
    hide Eq, Mul;
    EqMulAt(s, x, 0, p);
    EqMulAt(t, y, 0, p);
    MulZero(s);
    MulZero(t);
    EqAdd(Mul(s, x), 0, Mul(t, y), 0, p);
  }

  lemma TangentOnCurve(pt: Pt, c: Curve, b: int)
    requires c.Valid() && pt.Pt? && On(pt, c.p) && pt.y > 0 && OnCurve(pt, c, b)
    ensures OnCurve(Line(TangentSlope(pt, c), pt, pt, c.p), c, b)
  {
    hide Eq, Mul, LineX, LineY, Cubic, TangentSlope, Prime, Gap;
    var p, x, y := c.p, pt.x, pt.y;
    var lam := TangentSlope(pt, c);
    var d := Mul(lam, lam) - 3 * x;
    var g, s := Cubic(x, c.a, b) - Mul(y, y), 3 * Mul(x, x) + c.a - 2 * Mul(lam, y);
    TangentEq(pt, c);
    EqSym(Mul(lam, Mul(2, y)), 3 * Mul(x, x) + c.a, p);
    TwiceInside(lam, y);
    EqShift(3 * Mul(x, x) + c.a, Mul(lam, Mul(2, y)), s, p);
    EqSym(Mul(y, y), Cubic(x, c.a, b), p);
    EqShift(Cubic(x, c.a, b), Mul(y, y), g, p);
    TangentGap(d, x, y, lam, c.a, b);
    MulCommutes(s, d);
    ZeroMultiples(1, g, d, s, p);
    MulOne(g);
    ThirdOnCurve(lam, x, y, x, d, c, b);
  }

  lemma TwiceInside(l: int, y: int)
    ensures Mul(l, Mul(2, y)) == 2 * Mul(l, y)
  {}

  /** The sum of two points of the curve is a point of the curve. */
  lemma AddOnCurve(p1: Pt, p2: Pt, c: Curve, b: int)
    requires c.Valid() && On(p1, c.p) && On(p2, c.p) && OnCurve(p1, c, b) && OnCurve(p2, c, b)
    ensures OnCurve(ECAdd(p1, p2, c), c, b)
  {
    hide OnCurve, Line, ChordSlope, TangentSlope, Prime;
    if p1.Pt? && p2.Pt? {
      if p1.x != p2.x {
        ChordOnCurve(p1, p2, c, b);
      } else if p1.y == p2.y > 0 {
        TangentOnCurve(p1, c, b);
      } else {
        InfinityOnCurve(c, b);
      }
    }
  }

  lemma InfinityOnCurve(c: Curve, b: int)
    requires c.p > 0
    ensures OnCurve(Infinity, c, b)
  {}

  // ----- order -----

  lemma SlopeSymmetric(p1: Pt, p2: Pt, p: nat)
    requires Prime(p) && p1.Pt? && p2.Pt? && On(p1, p) && On(p2, p) && p1.x != p2.x
    ensures ChordSlope(p1, p2, p) == ChordSlope(p2, p1, p)
  {
    hide Eq, Mul, Prime, ChordSlope;
    var l, m, d := ChordSlope(p1, p2, p), ChordSlope(p2, p1, p), p2.x - p1.x;
    SlopeEq(p1, p2, p);
    SlopeEq(p2, p1, p);
    EqSame(0, p);
    EqAdd(0, 0, Mul(m, -d), p1.y - p2.y, p);
    NegateFactor(m, d);
    EqSym(Mul(m, d), p2.y - p1.y, p);
    EqTrans(Mul(l, d), p2.y - p1.y, Mul(m, d), p);
    MulCommutes(l, d);
    MulCommutes(m, d);
    DifferentX(p1.x, p2.x, p);
    Cancel(d, l, m, p);
    SlopeReduced(p1, p2, p);
    SlopeReduced(p2, p1, p);
    EqUnique(l, m, p);
  }

  lemma SlopeReduced(p1: Pt, p2: Pt, p: nat)
    requires Prime(p) && p1.Pt? && p2.Pt? && On(p1, p) && On(p2, p) && p1.x != p2.x
    ensures ChordSlope(p1, p2, p) < p
  {}

  lemma NegateFactor(m: int, d: int)
    ensures Mul(m, -d) == -Mul(m, d)
  {}

  /** The order of the operands does not matter. */
  lemma AddCommutes(p1: Pt, p2: Pt, c: Curve)
    requires c.Valid() && On(p1, c.p) && On(p2, c.p)
    ensures ECAdd(p1, p2, c) == ECAdd(p2, p1, c)
  {
    hide ChordSlope, TangentSlope, Prime, LineX, LineY;
    if p1.Pt? && p2.Pt? && p1.x != p2.x {
      SlopeSymmetric(p1, p2, c.p);
      LineSymmetric(ChordSlope(p1, p2, c.p), p1, p2, c.p);
    }
  }

  lemma LineSymmetric(lam: nat, p1: Pt, p2: Pt, p: nat)
    requires Prime(p) && p1.Pt? && p2.Pt? && On(p1, p) && On(p2, p) && p1.x != p2.x
    requires lam == ChordSlope(p1, p2, p)
    ensures Line(lam, p1, p2, p) == Line(lam, p2, p1, p)
  {
    hide Eq, Mul, Prime, ChordSlope, LineX, LineY;
    var x3 := LineX(lam, p1.x, p2.x, p);
    LineEq(lam, p1.x, p1.y, p2.x, p);
    LineEq(lam, p2.x, p2.y, p1.x, p);
    SameResidue(x3, LineX(lam, p2.x, p1.x, p), Mul(lam, lam) - p1.x - p2.x, p);
    SlopeEq(p1, p2, p);
    EqShift(Mul(lam, p2.x - p1.x), p2.y - p1.y, Mul(lam, p2.x - p1.x) - (p2.y - p1.y), p);
    SplitChord(lam, p1.x, p2.x, x3);
    EqShift(Mul(lam, p2.x - x3) - p2.y, Mul(lam, p1.x - x3) - p1.y, Mul(lam, p2.x - p1.x) - (p2.y - p1.y), p);
    var y3 := LineY(lam, p2.x, p2.y, x3, p);
    EqTrans(y3, Mul(lam, p2.x - x3) - p2.y, Mul(lam, p1.x - x3) - p1.y, p);
    SameResidue(y3, LineY(lam, p1.x, p1.y, x3, p), Mul(lam, p1.x - x3) - p1.y, p);
  }

  lemma SplitChord(l: int, x1: int, x2: int, x3: int)
    ensures Mul(l, x2 - x3) == Mul(l, x2 - x1) + Mul(l, x1 - x3)
  {}

  lemma SameResidue(x: nat, y: nat, z: int, p: nat)
    requires x < p && y < p && Eq(x, z, p) && Eq(y, z, p)
    ensures x == y
  {
    hide Eq;
    EqSym(y, z, p);
    EqTrans(x, z, y, p);
    EqUnique(x, y, p);
  }

  /** The opposite point. */
  function Negate(pt: Pt, p: nat): (r: Pt)
    requires On(pt, p)
    ensures On(r, p)
  {
    if pt.Infinity? || pt.y == 0 then pt else Pt(pt.x, p - pt.y)
  }

  /** Only the opposite point gives the point at infinity. */
  lemma OnlyOpposite(p1: Pt, p2: Pt, c: Curve, b: int)
    requires c.Valid() && On(p1, c.p) && On(p2, c.p) && OnCurve(p1, c, b) && OnCurve(p2, c, b)
    ensures ECAdd(p1, p2, c) == Infinity <==> p2 == Negate(p1, c.p)
    ensures OnCurve(Negate(p1, c.p), c, b)
  {
    hide Eq, Mul, Cubic, Prime, ChordSlope, TangentSlope, LineX, LineY;
    var p := c.p;
    PrimeOdd(p);
    if p1.Pt? {
      if p1.y > 0 { OppositeOnCurve(p1.x, p1.y, c, b); }
      if p2.Pt? && p1.x == p2.x && p1.y != p2.y {
        EqSym(Mul(p2.y, p2.y), Cubic(p1.x, c.a, b), p);
        EqTrans(Mul(p1.y, p1.y), Cubic(p1.x, c.a, b), Mul(p2.y, p2.y), p);
        SameSquares(p1.y, p2.y, p);
      }
    }
  }

  lemma OppositeOnCurve(x: nat, y: int, c: Curve, b: int)
    requires c.p > 0 && 0 < y < c.p && OnCurve(Pt(x, y), c, b)
    ensures OnCurve(Pt(x, c.p - y), c, b)
  {
    hide Eq, Mul, Cubic;
    var o := -y;
    PlusModulus(o, c.p);
    EqPowers(c.p - y, o, c.p);
    NegateSquare(y);
    EqTrans(Mul(c.p - y, c.p - y), Mul(y, y), Cubic(x, c.a, b), c.p);
  }

  lemma NegateSquare(y: int)
    ensures Mul(-y, -y) == Mul(y, y)
  {}

  /** Different square roots of one number are opposite. */
  lemma SameSquares(y: nat, z: nat, p: nat)
    requires Prime(p) && y < p && z < p && y != z && Eq(Mul(y, y), Mul(z, z), p)
    ensures y > 0 && z == p - y
  {
    hide Eq, Mul, Prime;
    FactorSquares(y, z);
    EqShift(Mul(y, y), Mul(z, z), Mul(y - z, y + z), p);
    DifferentX(z, y, p);
    MulZero(y - z);
    Cancel(y - z, y + z, 0, p);
    if y + z < p {
      EqUnique(y + z, 0, p);
    } else {
      PlusModulus(y + z - p, p);
      EqSym(y + z, y + z - p, p);
      EqTrans(y + z - p, y + z, 0, p);
      EqUnique(y + z - p, 0, p);
    }
  }

  lemma FactorSquares(y: int, z: int)
    ensures Mul(y, y) - Mul(z, z) == Mul(y - z, y + z)
  {}
}
