/** bn_mod_inv_bin of include/math/big_num.h: binary inversion, which is right modulo odd numbers. */
module ModInverse {
  import opened Common
  import opened Numbers
  import opened Digits
  import opened Shifts
  import opened Bits
  import opened BigNum
  import opened Divide
  import opened Modular

  predicate Divides(g: nat, a: int)
    requires g > 0
  {
    a % g == 0
  }

  ghost predicate Coprime(a: nat, b: nat)
  {
    forall g: nat :: g > 1 && Divides(g, a) ==> !Divides(g, b)
  }

  lemma DividesSum(g: nat, a: int, b: int)
    requires g > 0 && Divides(g, a) && Divides(g, b)
    ensures Divides(g, a + b) && Divides(g, a - b)
  {
    var i, j := a / g, b / g;
    assert a == g * i && b == g * j;
    Distribute(g, i, j);
    Distribute(g, i, -j);
    ExactMultiple(a + b, g, i + j);
    ExactMultiple(a - b, g, i - j);
  }

  lemma DividesBack(g: nat, a: int, b: int)
    requires g > 0 && Divides(g, a - b) && Divides(g, b)
    ensures Divides(g, a)
  {
    DividesSum(g, a - b, b);
  }

  lemma DividesMultiple(g: nat, a: int, k: int)
    requires g > 0 && Divides(g, a)
    ensures Divides(g, k * a) && Divides(g, a * k)
  {
    var i := a / g;
    assert a == g * i;
    assert k * a == g * (k * i) by { assert k * (g * i) == g * (k * i); }
    assert a * k == k * a;
    ExactMultiple(k * a, g, k * i);
  }

  /** x * b is congruent to u modulo m. */
  predicate Cong(x: int, b: int, u: int, m: nat)
    requires m > 0
  {
    (x * b - u) % m == 0
  }

  lemma CongNonZero(x: int, b: int, u: int, m: nat)
    requires 0 < u < m && Cong(x, b, u, m)
    ensures x != 0
  {
    if x == 0 {
      assert -u % m == 0;
      DivModUnique(-u, m, -1, m - u);
    }
  }

  lemma HalfMultiple(n: int, m: nat)
    requires m > 0 && m % 2 == 1 && n % 2 == 0 && n % m == 0
    ensures n / 2 % m == 0
  {
    var k, h := n / m, m / 2;
    assert n == m * k && m == 2 * h + 1;
    assert n == 2 * (h * k) + k;
    var c := k / 2;
    assert k == 2 * c;
    assert n / 2 == m * c by { assert m * k == 2 * (m * c); }
    ExactMultiple(n / 2, m, c);
  }

  /** Halving u and x together, x being made even by adding the odd modulus. */
  lemma CongHalf(x: int, b: int, u: int, m: nat)
    requires m > 0 && m % 2 == 1 && u % 2 == 0 && Cong(x, b, u, m)
    ensures Cong((if x % 2 == 0 then x else x + m) / 2, b, u / 2, m)
  {
    hide Cong;
    if x % 2 == 0 {
      CongHalfEven(x / 2, b, u / 2, m);
    } else {
      CongAddModulus(x, b, u, m);
      CongHalfEven((x + m) / 2, b, u / 2, m);
    }
  }

  lemma CongAddModulus(x: int, b: int, u: int, m: nat)
    requires m > 0 && Cong(x, b, u, m)
    ensures Cong(x + m, b, u, m)
  {
    Distribute(b, x, m);
    ModAddMultiple(x * b - u, b, m);
  }

  lemma CongHalfEven(h: int, b: int, w: int, m: nat)
    requires m > 0 && m % 2 == 1 && Cong(2 * h, b, 2 * w, m)
    ensures Cong(h, b, w, m)
  {
    MulAssociative(2, h, b);
    HalfMultiple(2 * (h * b - w), m);
  }

  lemma CongSub(x: int, y: int, b: int, u: int, v: int, m: nat)
    requires m > 0 && Cong(x, b, u, m) && Cong(y, b, v, m)
    ensures Cong((x - y) % m, b, u - v, m)
  {
    var q, r := (x - y) / m, (x - y) % m;
    assert x - y == m * q + r;
    DividesSum(m, x * b - u, y * b - v);
    Distribute(b, x, -y);
    assert (x * b - u) - (y * b - v) == (x - y) * b - (u - v);
    assert r * b - (u - v) == (x - y) * b - (u - v) + (-(q * b)) * m by {
      Distribute(b, m * q, r);
      assert b * (m * q) == (q * b) * m;
    }
    ModAddMultiple((x - y) * b - (u - v), -(q * b), m);
  }

  lemma CongOne(x: nat, b: nat, m: nat)
    requires m > 1 && Cong(x, b, 1, m)
    ensures Inverts(x, b, m)
  {
    var k := (x * b - 1) / m;
    assert x * b - 1 == m * k;
    DivModUnique(x * b, m, k, 1);
  }

  /** An inverse exists only for coprime numbers, so the condition on the operands asks for no more than
      the result needs. */
  lemma InverseNeedsCoprime(x: nat, b: nat, m: nat)
    requires m > 1 && Inverts(x, b, m)
    ensures Coprime(b, m)
  {
    var k := x * b / m;
    assert x * b == m * k + 1;
    forall g: nat | g > 1 && Divides(g, b) ensures !Divides(g, m) {
      if Divides(g, m) {
        DividesMultiple(g, b, x);
        DividesMultiple(g, m, k);
        DividesSum(g, x * b, m * k);
      }
    }
  }

  predicate Inverts(x: nat, b: nat, m: nat)
    requires m > 0
  {
    x * b % m == 1
  }

  lemma CongStart(b: nat, m: nat)
    requires m > 0
    ensures Cong(1, b, b, m) && Cong(0, b, m, m)
  {
    assert 1 * b - b == 0;
    ModAddMultiple(0, -1, m);
  }

  // ----- the run -----

  /** A working number and its multiplier. */
  datatype Num = Num(u: nat, x: nat)

  datatype Nums = Nums(a: Num, b: Num)

  /** The multiplier is halved; the modulus is added before unless it is even and not zero. */
  function Half(x: nat, m: nat): nat { if x != 0 && x % 2 == 0 then x / 2 else (x + m) / 2 }

  /** All factors of two are taken out. */
  function Odd(w: Num, m: nat): Num
    decreases w.u
  {
    if w.u == 0 || w.u % 2 == 1 then w else Odd(Num(w.u / 2, Half(w.x, m)), m)
  }

  function Less(a: Num, b: Num, m: nat): Num
    requires a.u >= b.u && m > 0
  {
    Num(a.u - b.u, (a.x - b.x) % m)
  }

  /** One turn of the loop. */
  function Turned(p: Nums, m: nat): Nums
    requires m > 0
  {
    var a, b := Odd(p.a, m), Odd(p.b, m);
    if a.u >= b.u then Nums(Less(a, b, m), b) else Nums(a, Less(b, a, m))
  }

  predicate Finished(p: Nums) { p.a.u == 1 || p.b.u == 1 }

  function Taken(p: Nums): nat { if p.a.u == 1 then p.a.x else p.b.x }

  function Working(b: nat, m: nat): Nums { Nums(Num(b, 1), Num(m, 0)) }

  function After(p: Nums, m: nat, n: nat): Nums
    requires m > 0
  {
    if n == 0 then p else Turned(After(p, m, n - 1), m)
  }

  // ----- when it ends -----

  /** No odd number above one divides both. */
  ghost predicate OnlyTwos(a: nat, b: nat)
  {
    forall g: nat :: g > 1 && g % 2 == 1 && Divides(g, a) ==> !Divides(g, b)
  }

  /** The loop goes on to its end from here. */
  ghost predicate Live(p: Nums)
  {
    OnlyTwos(p.a.u, p.b.u) && ((p.a.u > 0 && p.b.u > 0) || Finished(p))
  }

  lemma {:induction false} OddFacts(w: Num, m: nat)
    requires w.u > 0
    ensures 0 < Odd(w, m).u <= w.u && Odd(w, m).u % 2 == 1
    ensures forall g: nat :: g > 1 && g % 2 == 1 ==> (Divides(g, Odd(w, m).u) <==> Divides(g, w.u))
    decreases w.u
  {
    if w.u % 2 == 0 {
      OddFacts(Num(w.u / 2, Half(w.x, m)), m);
      forall g: nat | g > 1 && g % 2 == 1 ensures Divides(g, w.u / 2) <==> Divides(g, w.u) { HalfDivisor(g, w.u); }
    }
  }

  lemma HalfDivisor(g: nat, u: nat)
    requires g > 1 && g % 2 == 1 && u % 2 == 0
    ensures Divides(g, u / 2) <==> Divides(g, u)
  {
    if Divides(g, u) { HalfMultiple(u, g); }
    if Divides(g, u / 2) { DividesMultiple(g, u / 2, 2); }
  }

  /** An odd divisor of both numbers stays one, and a new one does not appear. */
  lemma TurnDivisors(p: Nums, m: nat, g: nat)
    requires p.a.u > 0 && p.b.u > 0 && m > 0 && g > 1 && g % 2 == 1
    ensures Divides(g, Turned(p, m).a.u) && Divides(g, Turned(p, m).b.u) <==> Divides(g, p.a.u) && Divides(g, p.b.u)
  {
    hide Odd, Divides;
    OddFacts(p.a, m);
    OddFacts(p.b, m);
    var a, b := Odd(p.a, m), Odd(p.b, m);
    if Divides(g, a.u) && Divides(g, b.u) {
      DividesSum(g, a.u, b.u);
      DividesSum(g, b.u, a.u);
    } else if Divides(g, Turned(p, m).a.u) && Divides(g, Turned(p, m).b.u) {
      if a.u >= b.u { DividesBack(g, a.u, b.u); } else { DividesBack(g, b.u, a.u); }
    }
  }

  lemma TurnLive(p: Nums, m: nat)
    requires Live(p) && !Finished(p) && m > 0
    ensures Live(Turned(p, m)) && Turned(p, m).a.u + Turned(p, m).b.u < p.a.u + p.b.u
  {
    hide Odd, Divides;
    OddFacts(p.a, m);
    OddFacts(p.b, m);
    var q := Turned(p, m);
    forall g: nat | g > 1 && g % 2 == 1 && Divides(g, q.a.u) ensures !Divides(g, q.b.u) { TurnDivisors(p, m, g); }
    var a, b := Odd(p.a, m), Odd(p.b, m);
    if a.u == b.u && a.u > 1 {
      SelfDivides(a.u);
    }
  }

  lemma SelfDivides(u: nat)
    requires u > 0
    ensures Divides(u, u) && Divides(u, 0)
  {}

  /** What bn_mod_inv_bin makes of the working numbers. */
  ghost function Inverted(p: Nums, m: nat): nat
    requires Live(p) && m > 0
    decreases p.a.u + p.b.u
  {
    if Finished(p) then Taken(p)
    else
      TurnLive(p, m);
      Inverted(Turned(p, m), m)
  }

  lemma WorkingLive(b: nat, m: nat)
    requires 0 < b < m && OnlyTwos(b, m)
    ensures Live(Working(b, m))
  {}

  /** The number that bn_mod_inv_bin leaves. */
  ghost function Inverse(b: nat, m: nat): nat
    requires 0 < b < m && OnlyTwos(b, m)
  {
    WorkingLive(b, m);
    Inverted(Working(b, m), m)
  }

  lemma {:induction false} ReachesEnd(p: Nums, m: nat) returns (n: nat)
    requires Live(p) && m > 0
    ensures Finished(After(p, m, n)) && Taken(After(p, m, n)) == Inverted(p, m)
    decreases p.a.u + p.b.u
  {
    hide Turned;
    if Finished(p) {
      n := 0;
    } else {
      TurnLive(p, m);
      var k := ReachesEnd(Turned(p, m), m);
      AfterFirst(p, m, k);
      n := k + 1;
    }
  }

  lemma {:induction false} AfterFirst(p: Nums, m: nat, n: nat)
    requires m > 0
    ensures After(Turned(p, m), m, n) == After(p, m, n + 1)
  {
    hide Turned;
    if n > 0 {
      AfterFirst(p, m, n - 1);
    } else {
      assert After(p, m, 0) == p;
    }
  }

  /** With a common odd divisor neither number becomes one. */
  lemma {:induction false} NeverFinished(p: Nums, m: nat, g: nat, n: nat)
    requires m > 0 && g > 1 && g % 2 == 1 && Divides(g, p.a.u) && Divides(g, p.b.u) && p.a.u + p.b.u > 0
    ensures !Finished(After(p, m, n)) && After(p, m, n).a.u + After(p, m, n).b.u > 0
    ensures Divides(g, After(p, m, n).a.u) && Divides(g, After(p, m, n).b.u)
  {
    hide Turned;
    if n > 0 {
      NeverFinished(p, m, g, n - 1);
      CommonKept(After(p, m, n - 1), m, g);
    } else {
      NotOne(g);
    }
  }

  lemma NotOne(g: nat)
    requires g > 1
    ensures !Divides(g, 1) && Divides(g, 0)
  {}

  lemma CommonKept(p: Nums, m: nat, g: nat)
    requires m > 0 && g > 1 && g % 2 == 1 && Divides(g, p.a.u) && Divides(g, p.b.u) && p.a.u + p.b.u > 0
    ensures var q := Turned(p, m); !Finished(q) && Divides(g, q.a.u) && Divides(g, q.b.u) && q.a.u + q.b.u > 0
  {
    hide Divides, Odd;
    NotOne(g);
    if p.a.u > 0 && p.b.u > 0 {
      TurnDivisors(p, m, g);
      OddFacts(p.a, m);
      OddFacts(p.b, m);
    } else if p.a.u > 0 {
      OddFacts(p.a, m);
      OddZero(p.b, m);
    } else {
      OddFacts(p.b, m);
      OddZero(p.a, m);
    }
  }

  lemma OddZero(w: Num, m: nat)
    requires w.u == 0
    ensures Odd(w, m) == w
  {}

  /** The loop ends exactly when no odd number divides both operands. */
  lemma EndsIff(b: nat, m: nat)
    requires 0 < b < m
    ensures (exists n: nat :: Finished(After(Working(b, m), m, n))) <==> OnlyTwos(b, m)
  {
    hide After, Finished;
    var p := Working(b, m);
    if OnlyTwos(b, m) {
      WorkingLive(b, m);
      var n := ReachesEnd(p, m);
    } else {
      var g: nat :| g > 1 && g % 2 == 1 && Divides(g, b) && Divides(g, m);
      forall n: nat ensures !Finished(After(p, m, n)) { NeverFinished(p, m, g, n); }
    }
  }

  // ----- odd moduli -----

  /** The multiplier makes the number from b, modulo m. */
  predicate Made(w: Num, b: nat, m: nat)
  {
    m > 0 && w.u <= m && w.x < m && Cong(w.x, b, w.u, m)
  }

  lemma {:induction false} OddMade(w: Num, b: nat, m: nat)
    requires m % 2 == 1 && w.u > 0 && Made(w, b, m)
    ensures Made(Odd(w, m), b, m)
    decreases w.u
  {
    hide Cong;
    if w.u % 2 == 0 {
      CongHalf(w.x, b, w.u, m);
      CongNonZero(w.x, b, w.u, m);
      OddMade(Num(w.u / 2, Half(w.x, m)), b, m);
    }
  }

  lemma TurnMade(p: Nums, b: nat, m: nat)
    requires m % 2 == 1 && p.a.u > 0 && p.b.u > 0 && Made(p.a, b, m) && Made(p.b, b, m)
    ensures Made(Turned(p, m).a, b, m) && Made(Turned(p, m).b, b, m)
  {
    hide Cong, Odd;
    OddMade(p.a, b, m);
    OddMade(p.b, b, m);
    var a, c := Odd(p.a, m), Odd(p.b, m);
    CongSub(a.x, c.x, b, a.u, c.u, m);
    CongSub(c.x, a.x, b, c.u, a.u, m);
  }

  lemma {:induction false} InvertedMade(p: Nums, b: nat, m: nat)
    requires Live(p) && m > 1 && m % 2 == 1 && Made(p.a, b, m) && Made(p.b, b, m)
    ensures Inverted(p, m) < m && Inverts(Inverted(p, m), b, m)
    decreases p.a.u + p.b.u
  {
    hide Cong, Turned, OnlyTwos;
    if Finished(p) {
      CongOne(Taken(p), b, m);
    } else {
      TurnLive(p, m);
      TurnMade(p, b, m);
      InvertedMade(Turned(p, m), b, m);
    }
  }

  /** Modulo an odd number the result is the inverse. */
  lemma OddModulus(b: nat, m: nat)
    requires 0 < b < m && m % 2 == 1 && OnlyTwos(b, m)
    ensures 0 < Inverse(b, m) < m && Inverts(Inverse(b, m), b, m)
  {
    hide Inverted, OnlyTwos;
    CongStart(b, m);
    WorkingLive(b, m);
    InvertedMade(Working(b, m), b, m);
  }

  /** In particular there is one. */
  lemma OddCoprime(b: nat, m: nat)
    requires 0 < b < m && m % 2 == 1
    ensures OnlyTwos(b, m) <==> Coprime(b, m)
  {
    hide Inverse;
    if OnlyTwos(b, m) {
      OddModulus(b, m);
      InverseNeedsCoprime(Inverse(b, m), b, m);
    }
  }

  // ----- even moduli -----

  /** The odd part of a number. */
  function OddPart(k: nat): nat { if k == 0 || k % 2 == 1 then k else OddPart(k / 2) }

  lemma {:induction false} OddPartFacts(k: nat)
    requires k > 0
    ensures 0 < OddPart(k) <= k && OddPart(k) % 2 == 1 && Divides(OddPart(k), k)
    ensures k % 2 == 0 ==> 2 * OddPart(k) <= k
  {
    if k % 2 == 0 {
      OddPartFacts(k / 2);
      DividesMultiple(OddPart(k), k / 2, 2);
    } else {
      SelfDivides(k);
    }
  }

  /** The even modulus loses its factors of two in the first turn, and so does its multiplier. */
  lemma {:induction false} OddOfEqual(k: nat, m: nat)
    requires k > 0
    ensures Odd(Num(k, k), m) == Num(OddPart(k), OddPart(k))
    decreases k
  {
    if k % 2 == 0 { OddOfEqual(k / 2, m); }
  }

  lemma OddOfModulus(m: nat)
    requires m > 0 && m % 2 == 0
    ensures Odd(Num(m, 0), m) == Num(OddPart(m), OddPart(m))
  {
    OddOfEqual(m / 2, m);
  }

  /** The first turn for an odd b. */
  lemma FirstTurn(b: nat, m: nat)
    requires 0 < b < m && m % 2 == 0 && b % 2 == 1
    ensures var o := OddPart(m);
      Turned(Working(b, m), m) ==
        if b >= o then Nums(Num(b - o, (1 - o) % m), Num(o, o)) else Nums(Num(b, 1), Num(o - b, (o - 1) % m))
  {
    hide OddPart;
    OddOfModulus(m);
    OddAlready(Num(b, 1), m);
  }

  lemma OddAlready(w: Num, m: nat)
    requires w.u % 2 == 1
    ensures Odd(w, m) == w
  {}

  /** A modulus that is a power of two: one is answered for three. */
  lemma PowerOfTwoFails(m: nat)
    requires m >= 4 && m % 2 == 0 && OddPart(m) == 1
    ensures OnlyTwos(3, m) && Inverse(3, m) == 1
  {
    hide Turned, OddPart;
    FirstTurn(3, m);
    NoOddDivisor(m);
    assert OnlyTwos(3, m);
    WorkingLive(3, m);
    TurnLive(Working(3, m), m);
    assert Inverted(Turned(Working(3, m), m), m) == 1;
  }

  lemma {:induction false} NoOddDivisor(m: nat)
    requires m > 0 && OddPart(m) == 1
    ensures forall g: nat :: g > 1 && g % 2 == 1 ==> !Divides(g, m)
  {
    forall g: nat | g > 1 && g % 2 == 1 ensures !Divides(g, m) {
      if m % 2 == 1 {
        NotOne(g);
      } else {
        NoOddDivisor(m / 2);
        HalfDivisor(g, m);
      }
    }
  }

  /** Above the odd part o by two or by four there are coprime numbers. */
  lemma AboveOddPart(d: nat, m: nat)
    requires m > 0 && m % 2 == 0 && (d == 2 || d == 4)
    ensures OnlyTwos(OddPart(m) + d, m) && Coprime(OddPart(m) + d, m)
  {
    hide OddPart;
    var b := OddPart(m) + d;
    OddPartFacts(m);
    forall g: nat | g > 1 && Divides(g, b) ensures !Divides(g, m) {
      OddFactor(g, b);
      if Divides(g, m) {
        DividesOddPart(g, m);
        DividesSum(g, b, OddPart(m));
        NoPowerOfTwo(g, d);
      }
    }
  }

  lemma OddFactor(d: nat, a: nat)
    requires d > 0 && Divides(d, a) && a % 2 == 1
    ensures d % 2 == 1
  {
    if d % 2 == 0 {
      var k, h := a / d, d / 2;
      assert a == d * k && d == 2 * h;
      MulAssociative(2, h, k);
    }
  }

  lemma NoPowerOfTwo(g: nat, d: nat)
    requires g > 1 && g % 2 == 1 && (d == 2 || d == 4 || d == 8)
    ensures !Divides(g, d)
  {
    if Divides(g, d) {
      HalfMultiple(d, g);
      if d >= 4 { HalfMultiple(d / 2, g); }
      if d >= 8 { HalfMultiple(d / 4, g); }
      NotOne(g);
    }
  }

  lemma {:induction false} DividesOddPart(g: nat, m: nat)
    requires g > 1 && g % 2 == 1 && m > 0 && Divides(g, m)
    ensures Divides(g, OddPart(m))
  {
    if m % 2 == 0 {
      HalfDivisor(g, m);
      DividesOddPart(g, m / 2);
    }
  }

  /** The result after two turns. */
  lemma TwoTurns(b: nat, m: nat)
    requires 1 < b < m && OnlyTwos(b, m)
    requires var q := Turned(Working(b, m), m); !Finished(q) && Turned(q, m).a.u == 1
    ensures Inverse(b, m) == Turned(Turned(Working(b, m), m), m).a.x
  {
    hide Turned, OnlyTwos;
    WorkingLive(b, m);
    var q := Turned(Working(b, m), m);
    TurnLive(Working(b, m), m);
    TurnLive(q, m);
    assert Inverted(q, m) == Inverted(Turned(q, m), m);
  }

  lemma FirstTurnAbove(d: nat, m: nat)
    requires m > 0 && m % 2 == 0 && OddPart(m) > 1 && (d == 2 || d == 4) && OddPart(m) + d < m
    ensures Turned(Working(OddPart(m) + d, m), m)
      == Nums(Num(d, m + 1 - OddPart(m)), Num(OddPart(m), OddPart(m)))
  {
    hide OddPart, Turned, Divides;
    var o := OddPart(m);
    OddPartFacts(m);
    FirstTurn(o + d, m);
    DivModUnique(1 - o, m, -1, m + 1 - o);
  }

  /** The second turn ends the loop for o + 2 and o + 4: their number is two or four. */
  lemma SecondTurn(d: nat, m: nat)
    requires m > 0 && m % 2 == 0 && OddPart(m) > 1 && (d == 2 || d == 4) && OddPart(m) + d < m
    ensures OnlyTwos(OddPart(m) + d, m)
    ensures var h := (m + 1 - OddPart(m)) / 2;
      Inverse(OddPart(m) + d, m) == if d == 2 then h else Half(h, m)
  {
    hide OddPart, OnlyTwos, Turned, Half, Inverse, Divides;
    var o := OddPart(m);
    OddPartFacts(m);
    AboveOddPart(d, m);
    FirstTurnAbove(d, m);
    EvenMultiplier(o, m);
    LastTurn(Turned(Working(o + d, m), m), d, m);
    TwoTurns(o + d, m);
  }

  lemma LastTurn(q: Nums, d: nat, m: nat)
    requires m > 0 && (d == 2 || d == 4) && q.a.u == d && q.b.u > 1 && q.b.u % 2 == 1 && q.a.x > 0 && q.a.x % 2 == 0
    ensures Turned(q, m).a == Num(1, if d == 2 then q.a.x / 2 else Half(q.a.x / 2, m))
  {
    OddAlready(q.b, m);
    OddSteps(q.a, m);
  }

  lemma OddSteps(w: Num, m: nat)
    requires (w.u == 2 || w.u == 4) && w.x > 0 && w.x % 2 == 0
    ensures Odd(w, m) == Num(1, if w.u == 2 then w.x / 2 else Half(w.x / 2, m))
  {
    var v := Num(w.u / 2, w.x / 2);
    assert Odd(w, m) == Odd(v, m);
    if w.u == 4 {
      assert Odd(v, m) == Odd(Num(1, Half(v.x, m)), m);
    }
  }

  lemma EvenProduct(x: nat, b: nat, m: nat)
    requires x % 2 == 0 && m > 0 && m % 2 == 0
    ensures !Inverts(x, b, m)
  {
    var q, h, k := x * b / m, x / 2, m / 2;
    MulQuotient(x * b, m);
    assert x * b == 2 * (h * b) && m * q == 2 * (k * q);
  }

  /** A multiplier that has been rounded down is wrong already modulo the odd part. */
  lemma RoundedWrong(r: nat, o: nat, m: nat)
    requires o > 1 && o % 2 == 1 && m > 0 && Divides(o, m) && 4 * r == 3 * m - 1 - o
    ensures !Inverts(r, o + 4, m)
  {
    if r * (o + 4) % m == 1 {
      var q, k := r * (o + 4) / m, m / o;
      MulQuotient(r * (o + 4), m);
      ExactQuotient(m, o);
      assert r * (o + 4) - 1 == o * (k * q) by { assert m * q == o * (k * q); }
      RoundedAlgebra(r, o, k, q);
      ExactMultiple(8, o, 3 * (k * (o + 4)) - 1 - (o + 4) - 4 * (k * q));
      NoPowerOfTwo(o, 8);
    }
  }

  lemma RoundedAlgebra(r: int, o: int, k: int, q: int)
    requires 4 * r == 3 * (o * k) - 1 - o && r * (o + 4) - 1 == o * (k * q)
    ensures 8 == o * (3 * (k * (o + 4)) - 1 - (o + 4) - 4 * (k * q))
  {
    var b := o + 4;
    assert 4 * (r * b) == (3 * (o * k) - 1 - o) * b;
    assert (3 * (o * k) - 1 - o) * b == 3 * (o * (k * b)) - b - o * b;
    assert o * (3 * (k * b) - 1 - b - 4 * (k * q)) == 3 * (o * (k * b)) - o - o * b - 4 * (o * (k * q));
  }

  lemma EvenMultiplier(o: nat, m: nat)
    requires o % 2 == 1 && m % 2 == 0 && o <= m
    ensures (m + 1 - o) % 2 == 0 && 2 * ((m + 1 - o) / 2) == m + 1 - o
  {}

  /** A modulus with an odd part o above one: o + 2 or o + 4 is inverted wrongly. */
  lemma OddPartFails(m: nat) returns (b: nat)
    requires m > 0 && m % 2 == 0 && OddPart(m) > 1
    ensures 0 < b < m && Coprime(b, m) && OnlyTwos(b, m) && !Inverts(Inverse(b, m), b, m)
  {
    hide OddPart, OnlyTwos, Inverse, Coprime, Divides, Inverts;
    OddPartFacts(m);
    EvenMultiplier(OddPart(m), m);
    if (m + 1 - OddPart(m)) / 2 % 2 == 0 {
      b := OddPart(m) + 2;
      EvenAnswer(m);
    } else {
      b := OddPart(m) + 4;
      RoundedAnswer(m);
    }
  }

  lemma EvenAnswer(m: nat)
    requires m > 0 && m % 2 == 0 && OddPart(m) > 1 && (m + 1 - OddPart(m)) / 2 % 2 == 0
    ensures var b := OddPart(m) + 2; b < m && Coprime(b, m) && OnlyTwos(b, m) && !Inverts(Inverse(b, m), b, m)
  {
    hide OddPart, OnlyTwos, Inverse, Coprime, Divides, Inverts, Half;
    OddPartFacts(m);
    AboveOddPart(2, m);
    SecondTurn(2, m);
    EvenProduct((m + 1 - OddPart(m)) / 2, OddPart(m) + 2, m);
  }

  lemma RoundedAnswer(m: nat)
    requires m > 0 && m % 2 == 0 && OddPart(m) > 1 && (m + 1 - OddPart(m)) / 2 % 2 == 1
    ensures var b := OddPart(m) + 4; b < m && Coprime(b, m) && OnlyTwos(b, m) && !Inverts(Inverse(b, m), b, m)
  {
    hide OddPart, OnlyTwos, Inverse, Coprime, Divides, Inverts, Half;
    var o := OddPart(m);
    var h := (m + 1 - o) / 2;
    OddPartFacts(m);
    EvenMultiplier(o, m);
    RoomAbove(o, m, h);
    AboveOddPart(4, m);
    SecondTurn(4, m);
    RoundedWrong(Half(h, m), o, m);
  }

  lemma RoomAbove(o: nat, m: nat, h: nat)
    requires 1 < o && o % 2 == 1 && m % 2 == 0 && 2 * o <= m && Divides(o, m) && 2 * h == m + 1 - o && h % 2 == 1
    ensures o + 4 < m && 4 * Half(h, m) == 3 * m - 1 - o
  {
    if o == 3 {
      assert m != 6;
    } else {
      assert o >= 5;
    }
    ParityOfHalf(h, m);
  }

  lemma ParityOfHalf(h: nat, m: nat)
    requires h % 2 == 1 && m % 2 == 0
    ensures 2 * Half(h, m) == h + m - 1
  {}

  /** Every even modulus but two has an operand that is inverted wrongly. */
  lemma EvenFails(m: nat) returns (b: nat)
    requires m >= 4 && m % 2 == 0
    ensures 0 < b < m && Coprime(b, m) && OnlyTwos(b, m) && !Inverts(Inverse(b, m), b, m)
  {
    hide OddPart, OnlyTwos, Inverse, Coprime;
    OddPartFacts(m);
    if OddPart(m) == 1 {
      b := 3;
      PowerOfTwoFails(m);
      AboveOddPart(2, m);
      DivModUnique(3, m, 0, 3);
      assert !Inverts(1, 3, m);
    } else {
      b := OddPartFails(m);
    }
  }

  /** For a modulus above one: bn_mod_inv_bin inverts every coprime operand exactly when the modulus is odd or two. */
  lemma ModulusIff(m: nat)
    requires m > 1
    ensures (forall b: nat :: 0 < b < m && Coprime(b, m) ==> OnlyTwos(b, m) && Inverts(Inverse(b, m), b, m))
      <==> m % 2 == 1 || m == 2
  {
    hide Inverse;
    if m % 2 == 1 {
      forall b: nat | 0 < b < m && Coprime(b, m) ensures OnlyTwos(b, m) && Inverts(Inverse(b, m), b, m) {
        OddModulus(b, m);
      }
    } else if m == 2 {
      InverseOfOne();
      forall b: nat | 0 < b < m && Coprime(b, m) ensures OnlyTwos(b, m) && Inverts(Inverse(b, m), b, m) {
        assert b == 1;
      }
    } else {
      var b := EvenFails(m);
    }
  }

  lemma InverseOfOne()
    ensures OnlyTwos(1, 2) && Inverse(1, 2) == 1
  {
    WorkingLive(1, 2);
  }

  /** Modulo four, three is answered one. */
  lemma ThreeModuloFour()
    ensures OnlyTwos(3, 4) && Inverse(3, 4) == 1 && !Inverts(1, 3, 4)
  {
    assert OddPart(4) == OddPart(2) == OddPart(1) == 1;
    PowerOfTwoFails(4);
  }

  // ----- the methods -----

  /** A working number and its multiplier, with room for one digit more. */
  ghost predicate Pair(u: Bn, x: Bn, m: nat, room: nat)
    reads u, u.num, x, x.num
  {
    u.Valid() && x.Valid() && u.Apart(x) && room < u.count && room < x.count && u.V() <= m && x.V() < m
  }

  /** The inner loops: all factors of two are taken out of u. */
  method Halve(u: Bn, x: Bn, m: Bn) returns (status: Status)
    requires m.Valid() && Pair(u, x, m.V(), m.digits) && u.Apart(m) && x.Apart(m) && u.V() > 0
    modifies u`digits, u.num, x`digits, x.num
    ensures status.Ok? && Pair(u, x, m.V(), m.digits)
    ensures Num(u.V(), x.V()) == Odd(old(Num(u.V(), x.V())), m.V())
  {
    hide Val, BP, Half;
    status := Ok;
    u.Bounds();
    while u.IsEven()
      invariant Pair(u, x, m.V(), m.digits) && status.Ok? && u.V() > 0
      invariant Odd(Num(u.V(), x.V()), m.V()) == Odd(old(Num(u.V(), x.V())), m.V())
      decreases u.V()
    {
      status := HalveOnce(u, x, m);
      u.Bounds();
    }
    u.Bounds();
  }

  method HalveOnce(u: Bn, x: Bn, m: Bn) returns (status: Status)
    requires m.Valid() && Pair(u, x, m.V(), m.digits) && u.Apart(m) && x.Apart(m) && u.V() > 0
    modifies u`digits, u.num, x`digits, x.num
    ensures status.Ok? && Pair(u, x, m.V(), m.digits)
    ensures u.V() == old(u.V()) / 2 && x.V() == Half(old(x.V()), m.V())
  {
    hide Val, BP, Pow2, Half;
    u.Bounds();
    Pow2One();
    u.RShift(1);
    status := HalveMultiplier(x, m);
  }

  /** x := x / 2, or (x + m) / 2 when bn_is_even says no. */
  method HalveMultiplier(x: Bn, m: Bn) returns (status: Status)
    requires x.Valid() && m.Valid() && x.Apart(m) && x.V() < m.V() && m.digits < x.count
    modifies x`digits, x.num
    ensures status.Ok? && x.Valid() && x.V() == Half(old(x.V()), m.V()) < m.V()
  {
    hide Val, BP, Pow2;
    Pow2One();
    status := Ok;
    x.Bounds();
    m.Bounds();
    if !x.IsEven() {
      ghost var y := x.V();
      TwiceFits(m, y, x.count);
      var carry: Digit;
      status, carry := x.Add(m);
      x.Bounds();
    }
    x.RShift(1);
  }

  lemma TwiceFits(m: Bn, y: nat, count: nat)
    requires m.Shape() && y < m.V() && m.digits < count
    ensures y + m.V() < BP(count)
  {
    BelowStorage(m, count - 1);
  }

  /** The reduction of the larger number by the smaller: u -= v and x -= y modulo m. */
  method Reduce(u: Bn, x: Bn, v: Bn, y: Bn, m: Bn) returns (status: Status)
    requires m.Valid() && Pair(u, x, m.V(), m.digits) && Pair(v, y, m.V(), m.digits)
    requires u.Apart(m) && x.Apart(m) && u.Apart(v) && u.Apart(y) && x.Apart(v) && x.Apart(y)
    requires 0 < v.V() <= u.V() && v.V() < m.V()
    modifies u, u.num, x, x.num
    ensures status.Ok? && Pair(u, x, m.V(), m.digits)
    ensures Num(u.V(), x.V()) == Less(old(Num(u.V(), x.V())), Num(v.V(), y.V()), m.V())
  {
    hide Val, BP;
    DivModUnique(u.V() - v.V(), m.V(), 0, u.V() - v.V());
    status := ModSub(u, v, m);
    status := ModSub(x, y, m);
  }

  /** The main loop, until one of the two numbers is one. */
  method InvertLoop(u: Bn, x1: Bn, v: Bn, x2: Bn, m: Bn) returns (status: Status)
    requires m.Valid() && Pair(u, x1, m.V(), m.digits) && Pair(v, x2, m.V(), m.digits)
    requires u.Apart(m) && x1.Apart(m) && v.Apart(m) && x2.Apart(m)
    requires u.Apart(v) && u.Apart(x2) && x1.Apart(v) && x1.Apart(x2)
    requires u.V() < m.V() && Live(Nums(Num(u.V(), x1.V()), Num(v.V(), x2.V())))
    modifies u, u.num, x1, x1.num, v, v.num, x2, x2.num
    ensures status.Ok? && Pair(u, x1, m.V(), m.digits) && Pair(v, x2, m.V(), m.digits)
    ensures var p := Nums(Num(u.V(), x1.V()), Num(v.V(), x2.V()));
      Finished(p) && Taken(p) == old(Inverted(Nums(Num(u.V(), x1.V()), Num(v.V(), x2.V())), m.V()))
  {
    hide Val, BP, OnlyTwos, Turned;
    status := Ok;
    u.OneIff();
    v.OneIff();
    while !u.IsOne() && !v.IsOne()
      invariant Pair(u, x1, m.V(), m.digits) && Pair(v, x2, m.V(), m.digits) && u.V() < m.V() && status.Ok?
      invariant Live(Nums(Num(u.V(), x1.V()), Num(v.V(), x2.V())))
      invariant Inverted(Nums(Num(u.V(), x1.V()), Num(v.V(), x2.V())), m.V())
        == old(Inverted(Nums(Num(u.V(), x1.V()), Num(v.V(), x2.V())), m.V()))
      decreases u.V() + v.V()
    {
      u.OneIff();
      v.OneIff();
      TurnLive(Nums(Num(u.V(), x1.V()), Num(v.V(), x2.V())), m.V());
      status := InvertTurn(u, x1, v, x2, m);
    }
    u.OneIff();
    v.OneIff();
  }

  method InvertTurn(u: Bn, x1: Bn, v: Bn, x2: Bn, m: Bn) returns (status: Status)
    requires m.Valid() && Pair(u, x1, m.V(), m.digits) && Pair(v, x2, m.V(), m.digits)
    requires u.Apart(m) && x1.Apart(m) && v.Apart(m) && x2.Apart(m)
    requires u.Apart(v) && u.Apart(x2) && x1.Apart(v) && x1.Apart(x2)
    requires 0 < u.V() < m.V() && v.V() > 0
    modifies u, u.num, x1, x1.num, v, v.num, x2, x2.num
    ensures status.Ok? && Pair(u, x1, m.V(), m.digits) && Pair(v, x2, m.V(), m.digits) && u.V() < m.V()
    ensures Nums(Num(u.V(), x1.V()), Num(v.V(), x2.V()))
      == Turned(old(Nums(Num(u.V(), x1.V()), Num(v.V(), x2.V()))), m.V())
  {
    hide Val, BP, Odd;
    OddFacts(Num(u.V(), x1.V()), m.V());
    OddFacts(Num(v.V(), x2.V()), m.V());
    status := Halve(u, x1, m);
    status := Halve(v, x2, m);
    var c := u.Cmp(v);
    if c >= 0 {
      status := Reduce(u, x1, v, x2, m);
    } else {
      status := Reduce(v, x2, u, x1, m);
    }
  }

  /** bn_mod_inv_bin, for the operands it refuses and those for which its loop ends. */
  method ModInvBin(bn: Bn, m: Bn) returns (status: Status)
    requires bn.Valid() && m.Valid() && bn.Apart(m)
    requires 0 < bn.V() < m.V() ==> OnlyTwos(bn.V(), m.V())
    modifies bn`digits, bn.num
    ensures bn.Valid() && (!status.Ok? ==> bn.V() == old(bn.V()))
    ensures status == if !(0 < old(bn.V()) < m.V()) || 4 + m.digits > MAX_DIGITS then EINVAL
                      else if Inverse(old(bn.V()), m.V()) < BP(bn.count) then Ok else EOVERFLOW
    ensures status.Ok? ==> 0 < old(bn.V()) < m.V() && bn.V() < m.V() && bn.V() == Inverse(old(bn.V()), m.V())
    ensures status.Ok? && m.V() % 2 == 1 ==> 0 < bn.V() && Inverts(bn.V(), old(bn.V()), m.V())
  {
    hide Val, BP, OnlyTwos, Inverse;
    bn.Bounds();
    m.Bounds();
    if bn.IsZero() || m.IsZero() { return EINVAL; }
    var c := bn.Cmp(m);
    if c >= 0 { return EINVAL; }
    if m.V() % 2 == 1 { OddModulus(bn.V(), m.V()); }
    status := InvertBelow(bn, m);
  }

  /** The rest of bn_mod_inv_bin after its checks. */
  method InvertBelow(bn: Bn, m: Bn) returns (status: Status)
    requires bn.Valid() && m.Valid() && bn.Apart(m) && 0 < bn.V() < m.V() && OnlyTwos(bn.V(), m.V())
    modifies bn`digits, bn.num
    ensures bn.Valid() && (!status.Ok? ==> bn.V() == old(bn.V()))
    ensures status == if 4 + m.digits > MAX_DIGITS then EINVAL
                      else if Inverse(old(bn.V()), m.V()) < BP(bn.count) then Ok else EOVERFLOW
    ensures status.Ok? ==> bn.V() < m.V() && bn.V() == Inverse(old(bn.V()), m.V())
  {
    hide Val, BP, OnlyTwos, Inverted;
    FewerDigits(bn, m);
    WorkingLive(bn.V(), m.V());
    var u, v, x1, x2;
    status, u, v, x1, x2 := InvertStart(bn, m);
    if !status.Ok? { return; }
    status := InvertLoop(u, x1, v, x2, m);
    u.OneIff();
    v.OneIff();
    if u.IsOne() {
      status := TakeInverse(bn, x1, m);
    } else {
      status := TakeInverse(bn, x2, m);
    }
  }

  method TakeInverse(bn: Bn, x: Bn, m: Bn) returns (status: Status)
    requires bn.Valid() && m.Valid() && x.Valid() && bn.Apart(x) && bn.Apart(m) && x.V() < m.V()
    modifies bn`digits, bn.num
    ensures bn.Valid() && (!status.Ok? ==> bn.V() == old(bn.V()))
    ensures status == if x.V() < BP(bn.count) then Ok else EOVERFLOW
    ensures status.Ok? ==> bn.V() == x.V()
  {
    hide Val, BP;
    DigitsFit(x, bn.count);
    ghost var z := bn.num[..];
    status := bn.Assign(x);
    if !status.Ok? { assert bn.num[..bn.digits] == bn.num[..][..bn.digits] == z[..bn.digits]; }
  }

  /** The working numbers: u = bn with multiplier one, v = m with multiplier zero. */
  method InvertStart(bn: Bn, m: Bn) returns (status: Status, u: Bn, v: Bn, x1: Bn, x2: Bn)
    requires bn.Valid() && m.Valid() && bn.Apart(m) && 0 < bn.V() < m.V() && bn.digits <= m.digits
    ensures fresh(u) && fresh(u.num) && fresh(v) && fresh(v.num)
    ensures fresh(x1) && fresh(x1.num) && fresh(x2) && fresh(x2.num)
    ensures u.Apart(v) && u.Apart(x2) && x1.Apart(v) && x1.Apart(x2)
    ensures status == if 4 + m.digits <= MAX_DIGITS then Ok else EINVAL
    ensures status.Ok? ==> Pair(u, x1, m.V(), m.digits) && Pair(v, x2, m.V(), m.digits)
    ensures status.Ok? ==> Nums(Num(u.V(), x1.V()), Num(v.V(), x2.V())) == Working(bn.V(), m.V())
  {
    var bits := (4 + Max(bn.digits, m.digits)) * W;
    status, u, x1 := StartPair(bn, true, bits, m);
    if status.Ok? {
      status, v, x2 := StartPair(m, false, bits, m);
    } else {
      v := new Bn();
      x2 := new Bn();
    }
  }

  /** A working copy of src with multiplier one or zero. */
  method StartPair(src: Bn, one: bool, bits: nat, m: Bn) returns (status: Status, u: Bn, x: Bn)
    requires src.Valid() && m.Valid() && 0 < src.V() <= m.V() && 1 < m.V() && src.digits <= m.digits
    requires bits == (4 + m.digits) * W
    ensures fresh(u) && fresh(u.num) && fresh(x) && fresh(x.num) && u.Apart(x)
    ensures status == if 4 + m.digits <= MAX_DIGITS then Ok else EINVAL
    ensures status.Ok? ==> Pair(u, x, m.V(), m.digits) && u.V() == src.V() && x.V() == if one then 1 else 0
  {
    hide Val, BP;
    u := new Bn();
    x := new Bn();
    status := u.Init(bits);
    if !status.Ok? { return; }
    status := x.Init(bits);
    status := u.Assign(src);
    if one { status := x.AssignDigit(1); }
  }
}
