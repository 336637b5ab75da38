/** Point addition of include/math/elliptic_curve.h on big number objects: the affine chord-and-tangent code, the
    Jacobian code, and their agreement. With the room of EC_CURVE_CALC_BITS_DBL nothing fails. */
module PointOps {
  import opened Common
  import opened Numbers
  import opened Digits
  import opened Bits
  import opened BigNum
  import opened Modular
  import opened Field
  import opened Jacobian
  import opened FieldOps

  // ----- the objects -----

  /** The part of ec_curve_t that the formulas use. */
  class EcCurve {
    const p: Bn
    const a: Bn
    const m: nat
    const am3: bool

    constructor (p: Bn, a: Bn, m: nat, am3: bool)
      ensures this.p == p && this.a == a && this.m == m && this.am3 == am3
    {
      this.p, this.a, this.m, this.am3 := p, a, m, am3;
    }

    /** m bits are enough for p, and twice as many and one digit more for a storage. */
    ghost predicate Valid()
      reads p, p.num, a, a.num
    {
      && p.Valid() && Elem(a, p) && Value().Valid() && p.V() < Pow2(m)
      && DoubleBits(m) <= W * MAX_DIGITS && 4 + p.digits <= MAX_DIGITS && p.count <= Count()
    }

    ghost function Value(): Curve
      reads p, p.num, a, a.num
      requires p.Shape() && a.Shape()
    {
      Curve(p.V(), a.V(), am3)
    }

    /** The digits of the local objects. */
    function Count(): nat { (DoubleBits(m) + W - 1) / W }

    lemma Room()
      requires Valid()
      ensures Spacious(Count(), p.digits, p.V()) && 0 < DoubleBits(m) <= W * MAX_DIGITS && p.V() > 3 && Prime(p.V())
      ensures p.count <= Count() && 4 + p.digits <= MAX_DIGITS && Elem(a, p) && p.Shape() && a.Shape()
      ensures Value().Valid() && Value() == Curve(p.V(), a.V(), am3)
    {
      hide Pow2, Prime;
      RoomOf(p, m);
    }
  }

  /** ec_point_t. */
  class EcPoint {
    const x: Bn
    const y: Bn
    var infinity: bool

    constructor (x: Bn, y: Bn, infinity: bool)
      ensures this.x == x && this.y == y && this.infinity == infinity
    {
      this.x, this.y, this.infinity := x, y, infinity;
    }

    ghost predicate On(c: EcCurve)
      reads x, x.num, y, y.num, c.p, c.p.num
    {
      Elem(x, c.p) && Elem(y, c.p) && x.Apart(y) && Own(x, c) && Own(y, c)
    }

    ghost function Point(): Pt
      requires x.Shape() && y.Shape()
      reads this, x, x.num, y, y.num
    {
      if infinity then Infinity else Pt(x.V(), y.V())
    }

    /** The same object, or nothing in common. */
    ghost predicate Beside(b: EcPoint)
    {
      this == b || (this != b && x.Apart(b.x) && x.Apart(b.y) && y.Apart(b.x) && y.Apart(b.y))
    }
  }

  /** A coordinate is no part of the curve. */
  ghost predicate Own(x: Bn, c: EcCurve) { x.Apart(c.p) && x.Apart(c.a) }

  /** ec_point_proj_t. */
  class EcPointProj {
    const x: Bn
    const y: Bn
    const z: Bn

    constructor (x: Bn, y: Bn, z: Bn)
      ensures this.x == x && this.y == y && this.z == z
    {
      this.x, this.y, this.z := x, y, z;
    }

    ghost predicate On(c: EcCurve)
      reads x, x.num, y, y.num, z, z.num, c.p, c.p.num
    {
      && Elem(x, c.p) && Elem(y, c.p) && Elem(z, c.p) && x.Apart(y) && x.Apart(z) && y.Apart(z)
      && Own(x, c) && Own(y, c) && Own(z, c)
    }

    /** The affine point. */
    ghost function Point(p: nat): Pt
      requires x.Shape() && y.Shape() && z.Shape() && Prime(p) && z.V() < p
      reads x, x.num, y, y.num, z, z.num
    {
      Affine(x.V(), y.V(), z.V(), p)
    }

    ghost predicate Beside(b: EcPointProj)
    {
      this == b || (this != b && x.Apart(b.x) && x.Apart(b.y) && x.Apart(b.z) && y.Apart(b.x) && y.Apart(b.y) && y.Apart(b.z)
        && z.Apart(b.x) && z.Apart(b.y) && z.Apart(b.z))
    }
  }

  // ----- affine addition -----

  /** Three times the square of x, plus a. */
  method TangentTop(x: Bn, c: EcCurve) returns (status: Status, lambda: Bn)
    requires c.Valid() && Elem(x, c.p)
    ensures status.Ok? && fresh(lambda) && fresh(lambda.num) && Wide(lambda, c.p)
    ensures lambda.V() == FAdd(FMul(FMul(x.V(), x.V(), c.p.V()), 3, c.p.V()), c.a.V(), c.p.V())
  {
    hide Bn.V, Bn.Valid, Bn.Shape, EcCurve.Valid, Elem, Wide, FMul, FAdd, FSub, Prime, Spacious, Eq;
    c.Room();
    ElemParts(x, c.p);
    MinusThreeHere(FMul(FMul(x.V(), x.V(), c.p.V()), 3, c.p.V()), c.Value());
    status, lambda := Copied(x, DoubleBits(c.m), c.p);
    status := MulIn(lambda, lambda, c.p);
    status := DigitIn(lambda, 3, c.p);
    if c.am3 {
      var three := Three(c);
      status := SubIn(lambda, three, c.p);
    } else {
      status := AddIn(lambda, c.a, c.p);
    }
  }

  /** Twice y. */
  method TangentBottom(y: Bn, c: EcCurve) returns (status: Status, tm: Bn)
    requires c.Valid() && Elem(y, c.p)
    ensures status.Ok? && fresh(tm) && fresh(tm.num) && Wide(tm, c.p) && tm.V() == FMul(y.V(), 2, c.p.V())
    ensures y.V() > 0 ==> tm.V() > 0
  {
    hide Bn.V, Bn.Valid, Bn.Shape, EcCurve.Valid, Elem, Wide, FMul, FAdd, FSub, Prime, Spacious, Eq;
    c.Room();
    ElemParts(y, c.p);
    if y.V() > 0 {
      DoubleNonZero(y.V(), c.p.V());
      EqSame(0, c.p.V());
    }
    status, tm := Copied(y, DoubleBits(c.m), c.p);
    status := DigitIn(tm, 2, c.p);
  }

  lemma MinusThreeHere(x: nat, c: Curve)
    requires c.Valid()
    ensures c.am3 ==> FSub(x, 3, c.p) == FAdd(x, c.a, c.p)
  {
    if c.am3 { MinusThree(x, c); }
  }

  /** `bn_assign_digit(&tm, 3)`. */
  method Three(c: EcCurve) returns (x: Bn)
    requires c.Valid()
    ensures fresh(x) && fresh(x.num) && Elem(x, c.p) && x.V() == 3
  {
    hide BP, Val, Prime, Spacious;
    c.Room();
    SpaciousDigits(c.Count(), c.p.digits, c.p.V());
    x := new Bn();
    var status := x.Init(DoubleBits(c.m));
    status := x.AssignDigit(3);
  }

  /** lambda / tm. */
  method Quotient(lambda: Bn, tm: Bn, c: EcCurve) returns (status: Status)
    requires c.Valid() && Wide(lambda, c.p) && Wide(tm, c.p) && tm.V() > 0
    requires lambda.Apart(tm) && Own(lambda, c) && Own(tm, c)
    modifies lambda, lambda.num, tm, tm.num
    ensures status.Ok? && Wide(lambda, c.p) && Wide(tm, c.p) && !Eq(old(tm.V()), 0, c.p.V())
    ensures lambda.V() == FMul(old(lambda.V()), Inv(old(tm.V()), c.p.V()), c.p.V())
  {
    hide Bn.V, Bn.Valid, Bn.Shape, EcCurve.Valid, Elem, Wide, FMul, FAdd, FSub, Prime, Spacious, Eq;
    c.Room();
    WideElem(tm, c.p);
    status := InvIn(tm, c.p);
    status := MulIn(lambda, tm, c.p);
  }

  /** tm = lambda^2 - x1 - x2. */
  method Abscissa(tm: Bn, lambda: Bn, x1: Bn, x2: Bn, p: Bn) returns (status: Status)
    requires Wide(tm, p) && Wide(lambda, p) && Elem(x1, p) && Elem(x2, p)
    requires tm.Apart(lambda) && tm.Apart(x1) && tm.Apart(x2) && tm.Apart(p)
    modifies tm, tm.num
    ensures status.Ok? && Wide(tm, p) && Elem(tm, p) && tm.V() == LineX(lambda.V(), x1.V(), x2.V(), p.V())
  {
    hide Bn.V, Bn.Valid, Bn.Shape, Elem, Wide, FMul, FSub;
    WideElem(tm, p);
    WideElem(lambda, p);
    status := Set(tm, lambda, p);
    status := MulIn(tm, tm, p);
    status := SubIn(tm, x1, p);
    status := SubIn(tm, x2, p);
  }

  /** x and y become the point on the line of slope lambda with abscissa tm. */
  method Ordinate(x: Bn, y: Bn, lambda: Bn, tm: Bn, p: Bn) returns (status: Status)
    requires Elem(x, p) && Elem(y, p) && Wide(lambda, p) && Elem(tm, p)
    requires x.Apart(y) && x.Apart(lambda) && x.Apart(tm) && y.Apart(lambda) && y.Apart(tm) && lambda.Apart(tm)
    requires x.Apart(p) && y.Apart(p) && lambda.Apart(p) && tm.Apart(p)
    modifies x, x.num, y, y.num, lambda, lambda.num
    ensures status.Ok? && Elem(x, p) && Elem(y, p) && x.V() == tm.V()
    ensures y.V() == LineY(old(lambda.V()), old(x.V()), old(y.V()), tm.V(), p.V())
  {
    hide Bn.V, Bn.Valid, Bn.Shape, Elem, Wide, FMul, FSub;
    status := SubIn(x, tm, p);
    status := MulIn(lambda, x, p);
    status := SubIn(lambda, y, p);
    WideElem(lambda, p);
    status := Set(x, tm, p);
    status := Set(y, lambda, p);
  }

  /** The point on the line of slope lambda / tm through a and b. */
  method LineInto(a: EcPoint, b: EcPoint, lambda: Bn, tm: Bn, c: EcCurve) returns (status: Status)
    requires c.Valid() && a.On(c) && b.On(c) && a.Beside(b) && Wide(lambda, c.p) && Wide(tm, c.p) && tm.V() > 0
    requires lambda.Apart(tm) && Own(lambda, c) && Own(tm, c) && Clear(lambda, a) && Clear(lambda, b) && Clear(tm, a) && Clear(tm, b)
    modifies a, a.x, a.x.num, a.y, a.y.num, lambda, lambda.num, tm, tm.num
    ensures status.Ok? && a.On(c) && !a.infinity && !Eq(old(tm.V()), 0, c.p.V())
    ensures var p := c.p.V();
      var lam := FMul(old(lambda.V()), Inv(old(tm.V()), p), p);
      && a.x.V() == LineX(lam, old(a.x.V()), old(b.x.V()), p)
      && a.y.V() == LineY(lam, old(a.x.V()), old(a.y.V()), a.x.V(), p)
  {
    hide Bn.V, Bn.Valid, Bn.Shape, EcCurve.Valid, Elem, Wide, FMul, FAdd, FSub, Prime, Spacious, Eq, LineX, LineY;
    status := Quotient(lambda, tm, c);
    status := Abscissa(tm, lambda, a.x, b.x, c.p);
    status := Ordinate(a.x, a.y, lambda, tm, c.p);
    a.infinity := false;
  }

  /** A local object is no coordinate. */
  ghost predicate Clear(x: Bn, a: EcPoint) { x.Apart(a.x) && x.Apart(a.y) }

  /** A local object with the difference of two coordinates. */
  method Difference(u: Bn, v: Bn, c: EcCurve) returns (status: Status, x: Bn)
    requires c.Valid() && Elem(u, c.p) && Elem(v, c.p)
    ensures status.Ok? && fresh(x) && fresh(x.num) && Wide(x, c.p)
    ensures x.V() == FSub(u.V(), v.V(), c.p.V()) && (x.IsZero() <==> u.V() == v.V()) && (x.V() == 0 <==> x.IsZero())
  {
    hide Bn.V, Bn.Valid, Bn.Shape, EcCurve.Valid, Elem, Wide, FMul, FAdd, FSub, Prime, Spacious, Eq;
    c.Room();
    ElemParts(u, c.p);
    ElemParts(v, c.p);
    DifferenceZero(u.V(), v.V(), c.p.V());
    status, x := Copied(u, DoubleBits(c.m), c.p);
    status := SubIn(x, v, c.p);
    ElemParts(x, c.p);
  }

  /** bn_is_equal. */
  method Same(u: Bn, v: Bn, p: Bn) returns (r: bool)
    requires Elem(u, p) && Elem(v, p)
    ensures r <==> u.V() == v.V()
  {
    var c := u.Cmp(v);
    r := c == 0;
  }

  /** ec_point_affine_add; a and b may be the same object. */
  method AffineAdd(a: EcPoint, b: EcPoint, c: EcCurve) returns (status: Status)
    requires c.Valid() && a.On(c) && b.On(c) && a.Beside(b)
    modifies a, a.x, a.x.num, a.y, a.y.num
    ensures status.Ok? && a.On(c) && a.Point() == ECAdd(old(a.Point()), old(b.Point()), c.Value())
  {
    hide Bn.V, Bn.Valid, Bn.Shape, EcCurve.Valid, Elem, Wide, FMul, FAdd, FSub, Prime, Spacious, Eq, LineX, LineY;
    c.Room();
    if b.infinity { return Ok; }
    if a.infinity {
      status := Set(a.x, b.x, c.p);
      status := Set(a.y, b.y, c.p);
      a.infinity := b.infinity;
      return;
    }
    if a != b {
      var lambda, tm;
      status, tm := Difference(b.x, a.x, c);
      if !tm.IsZero() {
        status, lambda := Difference(b.y, a.y, c);
        status := LineInto(a, b, lambda, tm, c);
        return;
      }
      var same := Same(a.y, b.y, c.p);
      if !same {
        a.infinity := true;
        return Ok;
      }
    }
    status := AffineDouble(a, b, c);
  }

  /** The doubling of ec_point_affine_add, from its label point_double on; b has the coordinates of a. */
  method AffineDouble(a: EcPoint, b: EcPoint, c: EcCurve) returns (status: Status)
    requires c.Valid() && a.On(c) && b.On(c) && a.Beside(b) && !a.infinity && !b.infinity && a.Point() == b.Point()
    modifies a, a.x, a.x.num, a.y, a.y.num
    ensures status.Ok? && a.On(c) && a.Point() == ECAdd(old(a.Point()), old(b.Point()), c.Value())
  {
    hide Bn.V, Bn.Valid, Bn.Shape, EcCurve.Valid, Elem, Wide, FMul, FAdd, FSub, Prime, Spacious, Eq, LineX, LineY;
    c.Room();
    ElemParts(a.y, c.p);
    if a.y.IsZero() {
      a.infinity := true;
      return Ok;
    }
    var lambda, tm;
    status, lambda := TangentTop(a.x, c);
    status, tm := TangentBottom(a.y, c);
    status := LineInto(a, b, lambda, tm, c);
  }

  // ----- Jacobian coordinates -----

  /** bn_assign_digit(z, 1). */
  method SetOne(z: Bn, p: Bn) returns (status: Status)
    requires Elem(z, p) && z.Apart(p) && p.V() > 1
    modifies z, z.num
    ensures status.Ok? && Elem(z, p) && z.V() == 1
  {
    hide BP, Val;
    z.Below();
    status := z.AssignDigit(1);
  }

  /** tm = src * u. */
  method Product(src: Bn, u: Bn, c: EcCurve) returns (status: Status, tm: Bn)
    requires c.Valid() && Elem(src, c.p) && Elem(u, c.p)
    ensures status.Ok? && fresh(tm) && fresh(tm.num) && Wide(tm, c.p) && Elem(tm, c.p)
    ensures tm.V() == FMul(src.V(), u.V(), c.p.V())
  {
    hide Bn.V, Bn.Valid, Bn.Shape, EcCurve.Valid, Elem, Wide, FMul, FAdd, FSub, Prime, Spacious, Eq;
    c.Room();
    status, tm := Copied(src, DoubleBits(c.m), c.p);
    status := MulIn(tm, u, c.p);
  }

  /** A local object with a square. */
  method Square(src: Bn, c: EcCurve) returns (status: Status, tm: Bn)
    requires c.Valid() && Elem(src, c.p)
    ensures status.Ok? && fresh(tm) && fresh(tm.num) && Wide(tm, c.p) && Elem(tm, c.p)
    ensures tm.V() == FMul(src.V(), src.V(), c.p.V())
  {
    hide Bn.V, Bn.Valid, Bn.Shape, EcCurve.Valid, Elem, Wide, FMul, FAdd, FSub, Prime, Spacious, Eq;
    c.Room();
    status, tm := Copied(src, DoubleBits(c.m), c.p);
    status := MulIn(tm, tm, c.p);
  }

  /** A local object with the inverse. */
  method Inverted(z: Bn, c: EcCurve) returns (status: Status, zInv: Bn)
    requires c.Valid() && Elem(z, c.p) && z.V() > 0
    ensures status.Ok? && fresh(zInv) && fresh(zInv.num) && Wide(zInv, c.p) && Elem(zInv, c.p)
    ensures !Eq(z.V(), 0, c.p.V()) && zInv.V() == Inv(z.V(), c.p.V()) && Prime(c.p.V())
  {
    hide Bn.V, Bn.Valid, Bn.Shape, EcCurve.Valid, Elem, Wide, FMul, FAdd, FSub, Prime, Spacious, Eq;
    c.Room();
    status, zInv := Copied(z, DoubleBits(c.m), c.p);
    status := InvIn(zInv, c.p);
  }

  /** The coordinates are divided by Z^2 and Z^3. */
  method Normalize(x: Bn, y: Bn, zInv: Bn, c: EcCurve) returns (status: Status)
    requires c.Valid() && Elem(x, c.p) && Elem(y, c.p) && Elem(zInv, c.p)
    requires x.Apart(y) && x.Apart(zInv) && y.Apart(zInv) && Own(x, c) && Own(y, c)
    modifies x, x.num, y, y.num
    ensures status.Ok? && Elem(x, c.p) && Elem(y, c.p)
    ensures var p, zi := c.p.V(), zInv.V();
      && x.V() == FMul(old(x.V()), FMul(zi, zi, p), p)
      && y.V() == FMul(FMul(old(y.V()), FMul(zi, zi, p), p), zi, p)
  {
    hide Bn.V, Bn.Valid, Bn.Shape, EcCurve.Valid, Elem, Wide, FMul, FAdd, FSub, Prime, Spacious, Eq;
    var zInv2, tm;
    status, zInv2 := Square(zInv, c);
    status, tm := Product(x, zInv2, c);
    status := Set(x, tm, c.p);
    status, tm := Cube(y, zInv2, zInv, c);
    status := Set(y, tm, c.p);
  }

  /** y zInv2 zInv. */
  method Cube(y: Bn, zInv2: Bn, zInv: Bn, c: EcCurve) returns (status: Status, tm: Bn)
    requires c.Valid() && Elem(y, c.p) && Elem(zInv2, c.p) && Elem(zInv, c.p)
    ensures status.Ok? && fresh(tm) && fresh(tm.num) && Elem(tm, c.p)
    ensures tm.V() == FMul(FMul(y.V(), zInv2.V(), c.p.V()), zInv.V(), c.p.V())
  {
    hide Bn.V, Bn.Valid, Bn.Shape, EcCurve.Valid, Elem, Wide, FMul, FAdd, FSub, Prime, Spacious, Eq;
    status, tm := Product(y, zInv2, c);
    status := MulIn(tm, zInv, c.p);
    WideElem(tm, c.p);
  }

  /** ec_point_proj_norm. */
  method ProjNorm(a: EcPointProj, c: EcCurve) returns (status: Status)
    requires c.Valid() && a.On(c)
    modifies a.x, a.x.num, a.y, a.y.num, a.z, a.z.num
    ensures status.Ok? && a.On(c) && a.Point(c.p.V()) == old(a.Point(c.p.V()))
    ensures old(a.z.V()) == 0 ==> a.z.V() == 0
    ensures old(a.z.V()) != 0 ==> a.z.V() == 1 && old(a.Point(c.p.V())) == Pt(a.x.V(), a.y.V())
  {
    hide Bn.V, Bn.Valid, Bn.Shape, EcCurve.Valid, Elem, Wide, FMul, FAdd, FSub, Prime, Spacious, Eq, Affine;
    c.Room();
    ElemParts(a.z, c.p);
    ElemParts(a.x, c.p);
    ElemParts(a.y, c.p);
    if a.z.IsZero() { return Ok; }
    OneOfElem(a.z, c.p);
    if a.z.IsOne() {
      AffineOne(a.x.V(), a.y.V(), c.p.V());
      return Ok;
    }
    AffineIs(a.x.V(), a.y.V(), a.z.V(), c.p.V());
    var zInv;
    status, zInv := Inverted(a.z, c);
    status := Normalize(a.x, a.y, zInv, c);
    status := SetOne(a.z, c.p);
    ElemParts(a.x, c.p);
    ElemParts(a.y, c.p);
    AffineOne(a.x.V(), a.y.V(), c.p.V());
  }

  lemma OneOfElem(z: Bn, p: Bn)
    requires Elem(z, p)
    ensures z.Shape() && (z.IsOne() <==> z.V() == 1)
  {
    z.OneIff();
  }

  lemma AffineIs(x: nat, y: nat, z: nat, p: nat)
    requires Prime(p) && 0 < z < p
    ensures !Eq(z, 0, p)
    ensures var zi := Inv(z, p);
      Affine(x, y, z, p) == Pt(FMul(x, FMul(zi, zi, p), p), FMul(FMul(y, FMul(zi, zi, p), p), zi, p))
  {
    hide Eq, FMul, Prime;
    NonZero(z, p);
  }

  // ----- doubling -----

  /** tmB of the doubling: 3X^2 + aZ^4, by the shortcut for a = -3 or in general. */
  method DoubleSlope(x: Bn, z: Bn, c: EcCurve) returns (status: Status, tmB: Bn)
    requires c.Valid() && Elem(x, c.p) && Elem(z, c.p)
    ensures status.Ok? && fresh(tmB) && fresh(tmB.num) && Wide(tmB, c.p)
    ensures Eq(tmB.V(), 3 * Mul(x.V(), x.V()) + Mul(c.a.V(), Mul(Mul(z.V(), z.V()), Mul(z.V(), z.V()))), c.p.V())
  {
    hide Bn.V, Bn.Valid, Bn.Shape, EcCurve.Valid, Elem, Wide, FMul, FAdd, FSub, Prime, Spacious, Eq, Exp, Mul;
    c.Room();
    ElemParts(x, c.p);
    ElemParts(z, c.p);
    if c.am3 {
      ShortcutSlope(x.V(), z.V(), c.Value());
      status, tmB := Shortcut(x, z, c);
    } else {
      GeneralSlope(x.V(), z.V(), c.Value());
      status, tmB := General(x, z, c);
    }
  }

  method Shortcut(x: Bn, z: Bn, c: EcCurve) returns (status: Status, tmB: Bn)
    requires c.Valid() && Elem(x, c.p) && Elem(z, c.p)
    ensures status.Ok? && fresh(tmB) && fresh(tmB.num) && Wide(tmB, c.p)
    ensures var p, zz := c.p.V(), FMul(z.V(), z.V(), c.p.V());
      tmB.V() == FMul(FMul(FSub(x.V(), zz, p), FAdd(zz, x.V(), p), p), 3, p)
  {
    hide Bn.V, Bn.Valid, Bn.Shape, EcCurve.Valid, Elem, Wide, FMul, FAdd, FSub, Prime, Spacious, Eq;
    c.Room();
    var tmA;
    status, tmA := Square(z, c);
    status, tmB := Copied(x, DoubleBits(c.m), c.p);
    status := SubIn(tmB, tmA, c.p);
    status := AddIn(tmA, x, c.p);
    status := MulIn(tmB, tmA, c.p);
    status := DigitIn(tmB, 3, c.p);
  }

  method General(x: Bn, z: Bn, c: EcCurve) returns (status: Status, tmB: Bn)
    requires c.Valid() && Elem(x, c.p) && Elem(z, c.p)
    ensures status.Ok? && fresh(tmB) && fresh(tmB.num) && Wide(tmB, c.p)
    ensures var p := c.p.V();
      var t := FMul(FMul(x.V(), x.V(), p), 3, p);
      tmB.V() == if c.a.V() != 0 then FAdd(t, FMul(Exp(z.V(), 4) % p, c.a.V(), p), p) else t
  {
    hide Bn.V, Bn.Valid, Bn.Shape, EcCurve.Valid, Elem, Wide, FMul, FAdd, FSub, Prime, Spacious, Eq, Exp;
    c.Room();
    ElemParts(c.a, c.p);
    status, tmB := Square(x, c);
    status := DigitIn(tmB, 3, c.p);
    if !c.a.IsZero() {
      var tmA;
      status, tmA := Copied(z, DoubleBits(c.m), c.p);
      status := ExpIn(tmA, 4, c.p);
      status := MulIn(tmA, c.a, c.p);
      status := AddIn(tmB, tmA, c.p);
    }
  }

  /** tmC = x (2y)^2 and y2 = (2y)^4 / 2, from y2 = 2y. */
  method ScaledAbscissa(x: Bn, y2: Bn, c: EcCurve) returns (status: Status, tmC: Bn)
    requires c.Valid() && Elem(x, c.p) && Wide(y2, c.p) && x.Apart(y2) && Own(y2, c)
    modifies y2, y2.num
    ensures status.Ok? && fresh(tmC) && fresh(tmC.num) && Wide(tmC, c.p) && Wide(y2, c.p) && c.p.V() % 2 == 1
    ensures var p := c.p.V();
      var t2 := FMul(old(y2.V()), old(y2.V()), p);
      tmC.V() == FMul(x.V(), t2, p) && y2.V() == FHalf(FMul(t2, t2, p), p)
  {
    hide Bn.V, Bn.Valid, Bn.Shape, EcCurve.Valid, Elem, Wide, FMul, FAdd, FSub, Prime, Spacious, Eq, FHalf;
    c.Room();
    PrimeOdd(c.p.V());
    WideElem(y2, c.p);
    status := MulIn(y2, y2, c.p);
    status, tmC := Product(x, y2, c);
    status := MulIn(y2, y2, c.p);
    status := HalveIn(y2, c.p);
  }

  /** X and Y of the doubling, from M = tmB, S = tmC and h = y2. */
  method DoubleInto(x: Bn, y: Bn, tmB: Bn, tmC: Bn, y2: Bn, c: EcCurve) returns (status: Status)
    requires c.Valid() && Elem(x, c.p) && Elem(y, c.p) && Wide(tmB, c.p) && Wide(tmC, c.p) && Wide(y2, c.p)
    requires x.Apart(y) && x.Apart(tmB) && x.Apart(tmC) && x.Apart(y2) && y.Apart(tmB) && y.Apart(tmC) && y.Apart(y2)
    requires tmC.Apart(tmB) && tmC.Apart(y2) && Own(x, c) && Own(y, c) && Own(tmC, c)
    modifies x, x.num, y, y.num, tmC, tmC.num
    ensures status.Ok? && Elem(x, c.p) && Elem(y, c.p)
    ensures x.V() == DoubleX(tmB.V(), old(tmC.V()), c.p.V())
    ensures y.V() == DoubleY(tmB.V(), old(tmC.V()), y2.V(), c.p.V())
  {
    hide Bn.V, Bn.Valid, Bn.Shape, EcCurve.Valid, Elem, Wide, FMul, FAdd, FSub, Prime, Spacious, Eq;
    WideElem(tmB, c.p);
    WideElem(tmC, c.p);
    WideElem(y2, c.p);
    var tmA;
    status, tmA := Square(tmB, c);
    status := SubIn(tmA, tmC, c.p);
    status := SubIn(tmA, tmC, c.p);
    status := Set(x, tmA, c.p);
    status := SubIn(tmC, x, c.p);
    status := MulIn(tmC, tmB, c.p);
    status := SubIn(tmC, y2, c.p);
    status := Set(y, tmC, c.p);
  }

  /** The doubling of ec_point_proj_add, from its label point_double on. */
  method ProjDouble(a: EcPointProj, c: EcCurve) returns (status: Status)
    requires c.Valid() && a.On(c) && a.z.V() > 0
    modifies a.x, a.x.num, a.y, a.y.num, a.z, a.z.num
    ensures status.Ok? && a.On(c)
    ensures a.Point(c.p.V()) == ECAdd(old(a.Point(c.p.V())), old(a.Point(c.p.V())), c.Value())
  {
    hide Bn.V, Bn.Valid, Bn.Shape, EcCurve.Valid, Elem, Wide, FMul, FAdd, FSub, Prime, Spacious, Eq, Affine, FHalf, Mul, TangentSlope, LineX, LineY, DoubleX, DoubleY;
    c.Room();
    ElemParts(a.x, c.p);
    ElemParts(a.y, c.p);
    ElemParts(a.z, c.p);
    ZeroOrdinate(a.x.V(), a.y.V(), a.z.V(), c.p.V());
    AffineZero(a.x.V(), a.y.V(), c.p.V());
    if a.y.IsZero() {
      status := SetZero(a.z, c.p);
      return;
    }
    var tmB;
    status, tmB := DoubleSlope(a.x, a.z, c);
    WideElem(tmB, c.p);
    ElemParts(tmB, c.p);
    DoubleIsTangent(a.x.V(), a.y.V(), a.z.V(), tmB.V(), c.Value());
    status := Doubled(a.x, a.y, a.z, tmB, c);
  }

  /** The three coordinates of the doubling, from M = tmB. */
  method Doubled(x: Bn, y: Bn, z: Bn, tmB: Bn, c: EcCurve) returns (status: Status)
    requires c.Valid() && Elem(x, c.p) && Elem(y, c.p) && Elem(z, c.p) && Wide(tmB, c.p)
    requires x.Apart(y) && x.Apart(z) && y.Apart(z) && x.Apart(tmB) && y.Apart(tmB) && z.Apart(tmB)
    requires Own(x, c) && Own(y, c) && Own(z, c)
    modifies x, x.num, y, y.num, z, z.num
    ensures status.Ok? && Elem(x, c.p) && Elem(y, c.p) && Elem(z, c.p) && c.p.V() % 2 == 1
    ensures var p := c.p.V();
      var t := FMul(old(y.V()), 2, p);
      var t2 := FMul(t, t, p);
      var S, h := FMul(old(x.V()), t2, p), FHalf(FMul(t2, t2, p), p);
      x.V() == DoubleX(old(tmB.V()), S, p) && y.V() == DoubleY(old(tmB.V()), S, h, p) && z.V() == FMul(old(z.V()), t, p)
  {
    hide Bn.V, Bn.Valid, Bn.Shape, EcCurve.Valid, Elem, Wide, FMul, FAdd, FSub, Prime, Spacious, Eq, FHalf, DoubleX, DoubleY;
    var y2, tmA, tmC;
    status, y2 := TangentBottom(y, c);
    WideElem(y2, c.p);
    status, tmA := Product(z, y2, c);
    status := Set(z, tmA, c.p);
    status, tmC := ScaledAbscissa(x, y2, c);
    status := DoubleInto(x, y, tmB, tmC, y2, c);
  }

  /** bn_assign_zero. */
  method SetZero(z: Bn, p: Bn) returns (status: Status)
    requires Elem(z, p) && z.Apart(p)
    modifies z, z.num
    ensures status.Ok? && Elem(z, p) && z.V() == 0
  {
    hide BP, Val;
    z.AssignZero();
    status := Ok;
  }

  // ----- the general addition -----

  /** x1 z2^2 and y1 z2^3. */
  method Cross(x1: Bn, y1: Bn, z2: Bn, c: EcCurve) returns (status: Status, tmA: Bn, tmB: Bn)
    requires c.Valid() && Elem(x1, c.p) && Elem(y1, c.p) && Elem(z2, c.p)
    ensures status.Ok? && fresh(tmA) && fresh(tmA.num) && fresh(tmB) && fresh(tmB.num) && tmA.Apart(tmB)
    ensures Wide(tmA, c.p) && Wide(tmB, c.p) && Elem(tmA, c.p) && Elem(tmB, c.p)
    ensures var p := c.p.V();
      && tmA.V() == FMul(FMul(z2.V(), z2.V(), p), x1.V(), p)
      && tmB.V() == FMul(FMul(FMul(z2.V(), z2.V(), p), z2.V(), p), y1.V(), p)
  {
    hide Bn.V, Bn.Valid, Bn.Shape, EcCurve.Valid, Elem, Wide, FMul, FAdd, FSub, Prime, Spacious, Eq;
    status, tmA := Square(z2, c);
    status, tmB := Product(tmA, z2, c);
    status := MulIn(tmA, x1, c.p);
    status := MulIn(tmB, y1, c.p);
  }

  /** E^2 A and E^3. */
  method Cubes(tmA: Bn, tmE: Bn, c: EcCurve) returns (status: Status, tmC: Bn, tmD: Bn)
    requires c.Valid() && Elem(tmA, c.p) && Elem(tmE, c.p)
    ensures status.Ok? && fresh(tmC) && fresh(tmC.num) && fresh(tmD) && fresh(tmD.num) && tmC.Apart(tmD)
    ensures Wide(tmC, c.p) && Wide(tmD, c.p) && Elem(tmC, c.p) && Elem(tmD, c.p)
    ensures tmC.V() == SumC(tmA.V(), tmE.V(), c.p.V()) && tmD.V() == SumD(tmE.V(), c.p.V())
  {
    hide Bn.V, Bn.Valid, Bn.Shape, EcCurve.Valid, Elem, Wide, FMul, FAdd, FSub, Prime, Spacious, Eq;
    status, tmC := Square(tmE, c);
    status, tmD := Product(tmC, tmE, c);
    status := MulIn(tmC, tmA, c.p);
  }

  /** x = F^2 - D - 2C. */
  method SumXInto(x: Bn, tmC: Bn, tmD: Bn, tmF: Bn, c: EcCurve) returns (status: Status)
    requires c.Valid() && Elem(x, c.p) && Elem(tmC, c.p) && Elem(tmD, c.p) && Elem(tmF, c.p) && Own(x, c)
    requires x.Apart(tmC) && x.Apart(tmD) && x.Apart(tmF)
    modifies x, x.num
    ensures status.Ok? && Elem(x, c.p)
    ensures var p := c.p.V();
      x.V() == FSub(FSub(FMul(tmF.V(), tmF.V(), p), tmD.V(), p), FMul(tmC.V(), 2, p), p)
  {
    hide Bn.V, Bn.Valid, Bn.Shape, EcCurve.Valid, Elem, Wide, FMul, FAdd, FSub, Prime, Spacious, Eq;
    var res, tm;
    status, res := Square(tmF, c);
    status := SubIn(res, tmD, c.p);
    status, tm := TangentBottom(tmC, c);
    WideElem(tm, c.p);
    status := SubIn(res, tm, c.p);
    status := Set(x, res, c.p);
  }

  /** y = (C - x) F - D B. */
  method SumYInto(x: Bn, y: Bn, tmB: Bn, tmC: Bn, tmD: Bn, tmF: Bn, c: EcCurve) returns (status: Status)
    requires c.Valid() && Elem(x, c.p) && Elem(y, c.p) && Own(y, c) && x.Apart(y)
    requires Elem(tmB, c.p) && Elem(tmC, c.p) && Elem(tmD, c.p) && Elem(tmF, c.p)
    modifies y, y.num
    ensures status.Ok? && Elem(y, c.p)
    ensures var p := c.p.V();
      y.V() == old(FSub(FMul(FSub(tmC.V(), x.V(), p), tmF.V(), p), FMul(tmD.V(), tmB.V(), p), p))
  {
    hide Bn.V, Bn.Valid, Bn.Shape, EcCurve.Valid, Elem, Wide, FMul, FAdd, FSub, Prime, Spacious, Eq;
    c.Room();
    var res, tm;
    status, res := Copied(tmC, DoubleBits(c.m), c.p);
    status := SubIn(res, x, c.p);
    status := MulIn(res, tmF, c.p);
    status, tm := Product(tmD, tmB, c);
    status := SubIn(res, tm, c.p);
    status := Set(y, res, c.p);
  }

  /** The coordinates of the sum, from A, B, E and F. */
  method SumInto(x: Bn, y: Bn, z: Bn, z2: Bn, tmA: Bn, tmB: Bn, tmE: Bn, tmF: Bn, c: EcCurve) returns (status: Status)
    requires c.Valid() && Elem(x, c.p) && Elem(y, c.p) && Elem(z, c.p) && Own(x, c) && Own(y, c) && Own(z, c)
    requires x.Apart(y) && x.Apart(z) && y.Apart(z) && Apart3(x, y, z, tmA) && Apart3(x, y, z, tmB)
    requires Apart3(x, y, z, tmE) && Apart3(x, y, z, tmF) && Apart3(x, y, z, z2)
    requires Elem(z2, c.p) && Elem(tmA, c.p) && Elem(tmB, c.p) && Elem(tmE, c.p) && Elem(tmF, c.p)
    modifies x, x.num, y, y.num, z, z.num
    ensures status.Ok? && Elem(x, c.p) && Elem(y, c.p) && Elem(z, c.p)
    ensures var p := c.p.V();
      && x.V() == SumX(tmA.V(), tmE.V(), tmF.V(), p)
      && y.V() == SumY(tmA.V(), tmB.V(), tmE.V(), tmF.V(), p)
      && z.V() == FMul(FMul(tmE.V(), old(z.V()), p), z2.V(), p)
  {
    hide Bn.V, Bn.Valid, Bn.Shape, EcCurve.Valid, Elem, Wide, FMul, FAdd, FSub, Prime, Spacious, Eq, SumC, SumD;
    var tmC, tmD;
    status, tmC, tmD := Cubes(tmA, tmE, c);
    status := SumXInto(x, tmC, tmD, tmF, c);
    status := SumYInto(x, y, tmB, tmC, tmD, tmF, c);
    status := ProductInto(z, tmE, z2, c);
  }

  /** z = E z z2. */
  method ProductInto(z: Bn, tmE: Bn, z2: Bn, c: EcCurve) returns (status: Status)
    requires c.Valid() && Elem(z, c.p) && Elem(tmE, c.p) && Elem(z2, c.p) && Own(z, c) && z.Apart(tmE) && z.Apart(z2)
    modifies z, z.num
    ensures status.Ok? && Elem(z, c.p) && z.V() == FMul(FMul(tmE.V(), old(z.V()), c.p.V()), z2.V(), c.p.V())
  {
    hide Bn.V, Bn.Valid, Bn.Shape, EcCurve.Valid, Elem, Wide, FMul, FAdd, FSub, Prime, Spacious, Eq;
    var res;
    status, res := Product(tmE, z, c);
    status := MulIn(res, z2, c.p);
    WideElem(res, c.p);
    status := Set(z, res, c.p);
  }

  ghost predicate Apart3(x: Bn, y: Bn, z: Bn, u: Bn) { x.Apart(u) && y.Apart(u) && z.Apart(u) }

  /** An object that is no coordinate. */
  ghost predicate Off(x: Bn, a: EcPointProj) { a.x.Apart(x) && a.y.Apart(x) && a.z.Apart(x) }

  /** ec_point_proj_add; a and b may be the same object. */
  method ProjAdd(a: EcPointProj, b: EcPointProj, c: EcCurve) returns (status: Status)
    requires c.Valid() && a.On(c) && b.On(c) && a.Beside(b)
    modifies a.x, a.x.num, a.y, a.y.num, a.z, a.z.num
    ensures status.Ok? && a.On(c)
    ensures a.Point(c.p.V()) == ECAdd(old(a.Point(c.p.V())), old(b.Point(c.p.V())), c.Value())
  {
    hide Bn.V, Bn.Valid, Bn.Shape, EcCurve.Valid, Elem, Wide, FMul, FAdd, FSub, Prime, Spacious, Eq, Affine, ECAdd;
    c.Room();
    Coordinates(a, c);
    Coordinates(b, c);
    AddInfinity(a.Point(c.p.V()), b.Point(c.p.V()), c.Value());
    if b.z.IsZero() { return Ok; }
    if a.z.IsZero() {
      status := Set(a.x, b.x, c.p);
      status := Set(a.y, b.y, c.p);
      status := Set(a.z, b.z, c.p);
      return;
    }
    if a == b {
      status := ProjDouble(a, c);
    } else {
      status := ProjSum(a, b, c);
    }
  }

  lemma Coordinates(a: EcPointProj, c: EcCurve)
    requires c.Valid() && a.On(c)
    ensures a.x.Shape() && a.y.Shape() && a.z.Shape() && a.x.V() < c.p.V() && a.y.V() < c.p.V() && a.z.V() < c.p.V()
    ensures Prime(c.p.V()) && (a.z.IsZero() <==> a.z.V() == 0) && (a.Point(c.p.V()).Infinity? <==> a.z.V() == 0)
    ensures Jacobian.On(a.Point(c.p.V()), c.p.V()) && c.p.Shape() && c.a.Shape() && c.Value().Valid()
  {
    hide Affine;
    ElemParts(a.x, c.p);
    ElemParts(a.y, c.p);
    ElemParts(a.z, c.p);
    AffineFinite(a.x.V(), a.y.V(), a.z.V(), c.p.V());
  }

  lemma AddInfinity(p1: Pt, p2: Pt, c: Curve)
    requires c.Valid() && Jacobian.On(p1, c.p) && Jacobian.On(p2, c.p)
    ensures p2.Infinity? ==> ECAdd(p1, p2, c) == p1
    ensures p1.Infinity? ==> ECAdd(p1, p2, c) == p2
  {}

  /** The cross-multiplied coordinates of both points. */
  ghost predicate Crossed(a: EcPointProj, b: EcPointProj, tmA: nat, tmB: nat, tmC: nat, tmD: nat, p: nat)
    requires p > 0 && a.x.Shape() && a.y.Shape() && a.z.Shape() && b.x.Shape() && b.y.Shape() && b.z.Shape()
    reads a.x, a.x.num, a.y, a.y.num, a.z, a.z.num, b.x, b.x.num, b.y, b.y.num, b.z, b.z.num
  {
    && tmA == FMul(FMul(b.z.V(), b.z.V(), p), a.x.V(), p) && tmB == FMul(FMul(FMul(b.z.V(), b.z.V(), p), b.z.V(), p), a.y.V(), p)
    && tmC == FMul(FMul(a.z.V(), a.z.V(), p), b.x.V(), p) && tmD == FMul(FMul(FMul(a.z.V(), a.z.V(), p), a.z.V(), p), b.y.V(), p)
  }

  /** What equal cross-multiplied coordinates say about the points. */
  lemma CrossedSame(a: EcPointProj, b: EcPointProj, tmA: nat, tmB: nat, tmC: nat, tmD: nat, c: EcCurve)
    requires c.Valid() && a.On(c) && b.On(c) && a.z.V() > 0 && b.z.V() > 0
    requires Crossed(a, b, tmA, tmB, tmC, tmD, c.p.V())
    ensures Prime(c.p.V()) && c.Value().Valid() && Jacobian.On(a.Point(c.p.V()), c.p.V())
    ensures tmA == tmC && tmB == tmD ==> a.Point(c.p.V()) == b.Point(c.p.V())
    ensures tmA == tmC && tmB != tmD ==> ECAdd(a.Point(c.p.V()), b.Point(c.p.V()), c.Value()) == Infinity
    ensures tmA != tmC ==>
      var p := c.p.V();
      var E, F := FSub(tmC, tmA, p), FSub(tmD, tmB, p);
      Affine(SumX(tmA, E, F, p), SumY(tmA, tmB, E, F, p), FMul(FMul(E, a.z.V(), p), b.z.V(), p), p)
        == ECAdd(a.Point(p), b.Point(p), c.Value())
  {
    hide Bn.V, Bn.Valid, Bn.Shape, EcCurve.Valid, Elem, Affine, FMul, FSub, Prime, Eq, SumX, SumY, TangentSlope, ChordSlope, Line;
    Coordinates(a, c);
    Coordinates(b, c);
    SumIsChord(a.x.V(), a.y.V(), a.z.V(), b.x.V(), b.y.V(), b.z.V(), tmA, tmB, tmC, tmD, c.Value());
  }

  method CrossBoth(a: EcPointProj, b: EcPointProj, c: EcCurve)
    returns (status: Status, tmA: Bn, tmB: Bn, tmC: Bn, tmD: Bn)
    requires c.Valid() && a.On(c) && b.On(c)
    ensures status.Ok? && Elem(tmA, c.p) && Elem(tmB, c.p) && Elem(tmC, c.p) && Elem(tmD, c.p)
    ensures fresh(tmA) && fresh(tmA.num) && fresh(tmB) && fresh(tmB.num)
    ensures tmA.Shape() && tmB.Shape() && tmC.Shape() && tmD.Shape()
    ensures Crossed(a, b, tmA.V(), tmB.V(), tmC.V(), tmD.V(), c.p.V())
  {
    hide Bn.V, Bn.Valid, Bn.Shape, EcCurve.Valid, Elem, Wide, FMul, FAdd, FSub, Prime, Spacious, Eq;
    Coordinates(a, c);
    Coordinates(b, c);
    status, tmA, tmB := Cross(a.x, a.y, b.z, c);
    status, tmC, tmD := Cross(b.x, b.y, a.z, c);
    Shapes(tmA, tmB, tmC, tmD, c.p);
  }

  /** The sum of two finite points in different objects. */
  method ProjSum(a: EcPointProj, b: EcPointProj, c: EcCurve) returns (status: Status)
    requires c.Valid() && a.On(c) && b.On(c) && a.Beside(b) && a != b && a.z.V() > 0 && b.z.V() > 0
    modifies a.x, a.x.num, a.y, a.y.num, a.z, a.z.num
    ensures status.Ok? && a.On(c)
    ensures a.Point(c.p.V()) == ECAdd(old(a.Point(c.p.V())), old(b.Point(c.p.V())), c.Value())
  {
    hide Bn.V, Bn.Valid, Bn.Shape, EcCurve.Valid, Elem, Wide, FMul, FAdd, FSub, Prime, Spacious, Eq, Affine, ECAdd, SumX, SumY, Crossed, EcPointProj.Point;
    var tmA, tmB, tmC, tmD;
    status, tmA, tmB, tmC, tmD := CrossBoth(a, b, c);
    CrossedSame(a, b, tmA.V(), tmB.V(), tmC.V(), tmD.V(), c);
    var sameX := Same(tmA, tmC, c.p);
    if !sameX {
      status := ChordSum(a, b, tmA, tmB, tmC, tmD, c);
      return;
    }
    var sameY := Same(tmB, tmD, c.p);
    if sameY {
      status := ProjDouble(a, c);
    } else {
      status := ToInfinity(a, c);
    }
  }

  lemma Shapes(tmA: Bn, tmB: Bn, tmC: Bn, tmD: Bn, p: Bn)
    requires Elem(tmA, p) && Elem(tmB, p) && Elem(tmC, p) && Elem(tmD, p)
    ensures tmA.Shape() && tmB.Shape() && tmC.Shape() && tmD.Shape()
  {}

  method ToInfinity(a: EcPointProj, c: EcCurve) returns (status: Status)
    requires c.Valid() && a.On(c)
    modifies a.z, a.z.num
    ensures status.Ok? && a.On(c) && Prime(c.p.V()) && a.Point(c.p.V()) == Infinity
  {
    hide Bn.V, Bn.Valid, Bn.Shape, EcCurve.Valid, Elem, Wide, FMul, FAdd, FSub, Prime, Spacious, Eq, Affine;
    Coordinates(a, c);
    AffineZero(a.x.V(), a.y.V(), c.p.V());
    status := SetZero(a.z, c.p);
  }

  /** Points with different abscissas. */
  method ChordSum(a: EcPointProj, b: EcPointProj, tmA: Bn, tmB: Bn, tmC: Bn, tmD: Bn, c: EcCurve) returns (status: Status)
    requires c.Valid() && a.On(c) && b.On(c) && a.Beside(b) && a != b && a.z.V() > 0 && b.z.V() > 0
    requires Elem(tmA, c.p) && Elem(tmB, c.p) && Elem(tmC, c.p) && Elem(tmD, c.p) && Off(tmA, a) && Off(tmB, a)
    requires Crossed(a, b, tmA.V(), tmB.V(), tmC.V(), tmD.V(), c.p.V()) && tmA.V() != tmC.V()
    modifies a.x, a.x.num, a.y, a.y.num, a.z, a.z.num
    ensures status.Ok? && a.On(c) && Prime(c.p.V())
    ensures a.Point(c.p.V()) == ECAdd(old(a.Point(c.p.V())), old(b.Point(c.p.V())), c.Value())
  {
    hide Bn.V, Bn.Valid, Bn.Shape, EcCurve.Valid, Elem, Wide, FMul, FAdd, FSub, Prime, Spacious, Eq, Affine, ECAdd, SumX, SumY;
    Coordinates(a, c);
    Coordinates(b, c);
    Shapes(tmA, tmB, tmC, tmD, c.p);
    CrossedSame(a, b, tmA.V(), tmB.V(), tmC.V(), tmD.V(), c);
    status := ChordInto(a.x, a.y, a.z, b.z, tmA, tmB, tmC, tmD, c);
  }

  /** The coordinates of the sum, from A, B, C and D. */
  method ChordInto(x: Bn, y: Bn, z: Bn, z2: Bn, tmA: Bn, tmB: Bn, tmC: Bn, tmD: Bn, c: EcCurve) returns (status: Status)
    requires c.Valid() && Elem(x, c.p) && Elem(y, c.p) && Elem(z, c.p) && Own(x, c) && Own(y, c) && Own(z, c)
    requires x.Apart(y) && x.Apart(z) && y.Apart(z) && Apart3(x, y, z, tmA) && Apart3(x, y, z, tmB) && Apart3(x, y, z, z2)
    requires Elem(z2, c.p) && Elem(tmA, c.p) && Elem(tmB, c.p) && Elem(tmC, c.p) && Elem(tmD, c.p)
    modifies x, x.num, y, y.num, z, z.num
    ensures status.Ok? && Elem(x, c.p) && Elem(y, c.p) && Elem(z, c.p)
    ensures old(var p := c.p.V();
      var E, F := FSub(tmC.V(), tmA.V(), p), FSub(tmD.V(), tmB.V(), p);
      (SumX(tmA.V(), E, F, p), SumY(tmA.V(), tmB.V(), E, F, p), FMul(FMul(E, z.V(), p), z2.V(), p)))
      == (x.V(), y.V(), z.V())
  {
    hide Bn.V, Bn.Valid, Bn.Shape, EcCurve.Valid, Elem, Wide, FMul, FAdd, FSub, Prime, Spacious, Eq, SumX, SumY;
    var tmE, tmF;
    status, tmE := Difference(tmC, tmA, c);
    status, tmF := Difference(tmD, tmB, c);
    WideElem(tmE, c.p);
    WideElem(tmF, c.p);
    status := SumInto(x, y, z, z2, tmA, tmB, tmE, tmF, c);
  }

  // ----- agreement -----

  /** Adding in Jacobian coordinates and normalizing is adding the normalized points. */
  method AddThenNormalize(a: EcPointProj, b: EcPointProj, pa: EcPoint, pb: EcPoint, c: EcCurve) returns (status: Status)
    requires c.Valid() && a.On(c) && b.On(c) && a.Beside(b) && pa.On(c) && pb.On(c) && pa.Beside(pb)
    requires Off(pa.x, a) && Off(pa.y, a) && Off(pb.x, a) && Off(pb.y, a)
    requires Off(pa.x, b) && Off(pa.y, b) && Prime(c.p.V())
    requires a.Point(c.p.V()) == pa.Point() && b.Point(c.p.V()) == pb.Point()
    modifies a.x, a.x.num, a.y, a.y.num, a.z, a.z.num, pa, pa.x, pa.x.num, pa.y, pa.y.num
    ensures status.Ok? && a.On(c) && pa.On(c) && a.Point(c.p.V()) == pa.Point()
    ensures if pa.infinity then a.z.V() == 0 else a.z.V() == 1 && a.x.V() == pa.x.V() && a.y.V() == pa.y.V()
  {
    hide Bn.V, Bn.Valid, Bn.Shape, EcCurve.Valid, Elem, Wide, FMul, FAdd, FSub, Prime, Spacious, Eq, Affine, ECAdd;
    status := AddAndNormalize(a, b, c);
    status := AffineAdd(pa, pb, c);
  }

  method AddAndNormalize(a: EcPointProj, b: EcPointProj, c: EcCurve) returns (status: Status)
    requires c.Valid() && a.On(c) && b.On(c) && a.Beside(b) && Prime(c.p.V())
    modifies a.x, a.x.num, a.y, a.y.num, a.z, a.z.num
    ensures status.Ok? && a.On(c)
    ensures a.Point(c.p.V()) == ECAdd(old(a.Point(c.p.V())), old(b.Point(c.p.V())), c.Value())
    ensures a.Point(c.p.V()) == if a.z.V() == 0 then Infinity else Pt(a.x.V(), a.y.V())
    ensures a.z.V() <= 1
  {
    hide Bn.V, Bn.Valid, Bn.Shape, EcCurve.Valid, Elem, Wide, FMul, FAdd, FSub, Prime, Spacious, Eq, Affine, ECAdd;
    status := ProjAdd(a, b, c);
    Coordinates(a, c);
    status := ProjNorm(a, c);
    Coordinates(a, c);
  }
}
