/** bn_div of include/math/big_num.h: division by an underestimated quotient digit and a
    correction loop. */
module Divide {
  import opened Common
  import opened Numbers
  import opened Digits
  import opened Shifts
  import opened Bits
  import opened BigNum

  /** The estimate h / (t + 1) of one quotient digit, from the top t of a normalized divisor d and the
      top h of the partial remainder r, both of weight p: never too large, and at most 2 too small. */
  lemma Estimate(r: nat, d: nat, p: nat, h: nat, t: nat, a: nat)
    requires p > 0 && B <= 2 * t && a == h / (t + 1)
    requires p * t <= d < p * (t + 1) && p * h <= r < p * (h + 1)
    requires r < B * d
    ensures a < B && a * d <= r < (a + 3) * d
  {
    assert h == (t + 1) * a + h % (t + 1);
    EstimateLow(r, d, p, h, t, a);
    if a >= B { MulMono(d, B, a); }
    EstimateHigh(r, d, p, h, t, a);
  }

  lemma EstimateLow(r: nat, d: nat, p: nat, h: nat, t: nat, a: nat)
    requires d < p * (t + 1) && p * h <= r && (t + 1) * a <= h
    ensures a * d <= r
  {
    MulMono(a, d, p * (t + 1));
    assert a * (p * (t + 1)) == p * ((t + 1) * a);
    MulMono(p, (t + 1) * a, h);
  }

  lemma EstimateHigh(r: nat, d: nat, p: nat, h: nat, t: nat, a: nat)
    requires p * t <= d && r < p * (h + 1) && h < (t + 1) * a + (t + 1) && a < B <= 2 * (t as int)
    ensures r < (a + 3) * d
  {
    assert h + 1 <= (a + 3) * t by {
      assert (t + 1) * a + (t + 1) == a * t + t + a + 1;
      assert (a + 3) * t == a * t + 3 * t;
    }
    MulMono(p, h + 1, (a + 3) * t);
    MulMono(a + 3, p * t, d);
    assert p * ((a + 3) * t) == (a + 3) * (p * t);
  }

  /** The digits of a partial remainder that is below B times an m-digit divisor. */
  lemma Window(s: seq<Digit>, m: nat)
    requires 0 < m <= |s| && Val(s) < BP(m + 1)
    ensures Val(s) == Val(s[..m]) + BP(m) * Above(s, m)
    ensures BP(m - 1) * (s[m - 1] + B * Above(s, m)) <= Val(s) < BP(m - 1) * (s[m - 1] + B * Above(s, m) + 1)
  {
    hide BP, Val;
    ValSplit(s, m);
    if |s| > m {
      TailStep(s, m);
      ValSmall(s, m + 1);
      ValZero(s[m + 1..]);
    } else {
      ValZero(s[m..]);
    }
    ValTop(s[..m]);
    BPStep(m - 1);
    var p: int, x: int, y: int := BP(m - 1), s[m - 1], Above(s, m);
    assert s[..m][m - 1] == s[m - 1];
    assert (B * p) * y == p * (B * y);
    Distribute(p, x, B * y);
    Distribute(p, x + 1, B * y);
  }

  function Above(s: seq<Digit>, m: nat): Digit { if m < |s| then s[m] else 0 }

  /** The test of the correction loop. */
  lemma StillLarge(s: seq<Digit>, m: nat, d: nat)
    requires 0 < m <= |s| && Val(s) < BP(m + 1) && d < BP(m)
    ensures Val(s) >= d <==> Above(s, m) != 0 || Val(s[..m]) >= d
  {
    hide BP, Val;
    Window(s, m);
    if Above(s, m) != 0 { MulMono(BP(m), 1, Above(s, m)); }
  }

  lemma NoBorrow(r: nat, q: nat, borrow: nat, x: int)
    requires r < q && r - q * borrow == x && x >= 0
    ensures borrow == 0 && r == x
  {
    if borrow > 0 { MulMono(q, 1, borrow); }
  }

  /** Subtracting what fits leaves no borrow. */
  method SubtractEstimate(nn: array<Digit>, nd: nat, j: nat, dd: array<Digit>, m: nat, ai: Digit)
    requires nn != dd && m <= dd.Length && j + m <= nd <= nn.Length
    requires ai * Val(dd[..m]) <= Val(nn[j..nd])
    modifies nn
    ensures Val(nn[j..nd]) == old(Val(nn[j..nd])) - ai * Val(dd[..m])
    ensures SameOutside(nn[..], old(nn[..]), j, nd)
  {
    hide BP, Val;
    var borrow := SubDigitMult(nn, j, nd - j, dd, m, ai);
    assert nn[j..j + (nd - j)] == nn[j..nd];
    ValBound(nn[j..nd]);
    NoBorrow(Val(nn[j..nd]), BP(nd - j), borrow, old(Val(nn[j..nd])) - ai * Val(dd[..m]));
  }

  method SubtractOnce(nn: array<Digit>, nd: nat, j: nat, dd: array<Digit>, m: nat)
    requires nn != dd && m <= dd.Length && j + m <= nd <= nn.Length
    requires Val(dd[..m]) <= Val(nn[j..nd])
    modifies nn
    ensures Val(nn[j..nd]) == old(Val(nn[j..nd])) - Val(dd[..m])
    ensures SameOutside(nn[..], old(nn[..]), j, nd)
  {
    hide BP, Val;
    var borrow := DigitsSub(nn, j, nd - j, dd, m);
    assert nn[j..j + (nd - j)] == nn[j..nd];
    ValBound(nn[j..nd]);
    NoBorrow(Val(nn[j..nd]), BP(nd - j), borrow, old(Val(nn[j..nd])) - Val(dd[..m]));
  }

  /** The loop test of the correction: is the partial remainder still not below the divisor? */
  method NeedsCorrection(nn: array<Digit>, count: nat, nd: nat, j: nat, dd: array<Digit>, m: nat)
    returns (large: bool)
    requires 0 < m <= dd.Length && j + m <= nd <= count <= nn.Length
    requires forall k :: nd <= k < count ==> nn[k] == 0
    requires Val(nn[j..nd]) < B * Val(dd[..m])
    ensures large <==> Val(nn[j..nd]) >= Val(dd[..m])
  {
    hide BP, Val;
    ghost var s := nn[j..nd];
    ValBound(dd[..m]);
    BPStep(m);
    StillLarge(s, m, Val(dd[..m]));
    if count > j + m && nn[j + m] != 0 { return true; }
    var c := DigitsCmp(nn, j, dd, m);
    assert nn[j..j + m] == s[..m];
    return c >= 0;
  }

  /** One turn of the division loop: nn[j..nd) is reduced below the divisor and its quotient digit is
      returned; corrections counts the turns of the correction loop. */
  method QuotientDigit(nn: array<Digit>, count: nat, nd: nat, j: nat, dd: array<Digit>, m: nat, t: Digit)
    returns (ai: Digit, ghost corrections: nat)
    requires nn != dd && 0 < m <= dd.Length && j + m <= nd <= count <= nn.Length
    requires t == dd[m - 1] && B <= 2 * (t as int)
    requires forall k :: nd <= k < count ==> nn[k] == 0
    requires Val(nn[j..nd]) < B * Val(dd[..m])
    modifies nn
    ensures ai * Val(dd[..m]) + Val(nn[j..nd]) == old(Val(nn[j..nd]))
    ensures Val(nn[j..nd]) < Val(dd[..m])
    ensures corrections <= 2
    ensures SameOutside(nn[..], old(nn[..]), j, nd)
  {
    hide BP, Val, Partial;
    ghost var r, d, all := Val(nn[j..nd]), Val(dd[..m]), nn[..];
    ai := EstimateDigit(nn, count, nd, j, dd, m, t);
    if ai != 0 { SubtractEstimate(nn, nd, j, dd, m, ai); }
    corrections := 0;
    PartialStart(ai, d, r, Val(nn[j..nd]));
    var large := NeedsCorrection(nn, count, nd, j, dd, m);
    while large
      invariant SameOutside(nn[..], all, j, nd)
      invariant forall k :: nd <= k < count ==> nn[k] == 0
      invariant corrections <= 2 && Val(nn[j..nd]) <= r
      invariant Partial(ai, d, r, Val(nn[j..nd]), corrections)
      invariant large <==> Val(nn[j..nd]) >= d
      decreases 2 - corrections, large
    {
      PartialNext(ai, d, r, Val(nn[j..nd]), corrections);
      ai := ai + 1;
      SubtractOnce(nn, nd, j, dd, m);
      corrections := corrections + 1;
      large := NeedsCorrection(nn, count, nd, j, dd, m);
    }
    PartialEnd(ai, d, r, Val(nn[j..nd]), corrections);
  }

  /** The state of the correction loop: r is a times d and what is left. */
  predicate Partial(a: nat, d: nat, r: nat, left: nat, corrections: nat)
  {
    a * d + left == r && left < (3 - corrections) * d
  }

  lemma PartialStart(a: nat, d: nat, r: nat, left: nat)
    requires a * d <= r < (a + 3) * d && (if a == 0 then left == r else left == r - a * d)
    ensures Partial(a, d, r, left, 0) && left <= r
  {
    Distribute(d, a, 3);
  }

  lemma PartialNext(a: nat, d: nat, r: nat, left: nat, corrections: nat)
    requires Partial(a, d, r, left, corrections) && r < B * d && d <= left && corrections <= 2
    ensures a + 1 < B && corrections < 2 && Partial(a + 1, d, r, left - d, corrections + 1)
  {
    Distribute(d, a, 1);
    if a + 1 >= B { MulMono(d, B, a + 1); }
  }

  lemma PartialEnd(a: nat, d: nat, r: nat, left: nat, corrections: nat)
    requires Partial(a, d, r, left, corrections)
    ensures a * d + left == r
  {}

  /** The estimate, with its four ways of being computed. */
  method EstimateDigit(nn: array<Digit>, count: nat, nd: nat, j: nat, dd: array<Digit>, m: nat, t: Digit)
    returns (ai: Digit)
    requires nn != dd && 0 < m <= dd.Length && j + m <= nd <= count <= nn.Length
    requires t == dd[m - 1] && B <= 2 * (t as int)
    requires forall k :: nd <= k < count ==> nn[k] == 0
    requires Val(nn[j..nd]) < B * Val(dd[..m])
    ensures ai * Val(dd[..m]) <= Val(nn[j..nd]) < (ai + 3) * Val(dd[..m])
  {
    hide BP, Val;
    ghost var s, d := nn[j..nd], dd[..m];
    ghost var h := s[m - 1] + B * Above(s, m);
    ValBound(d);
    BPStep(m);
    Window(s, m);
    ValTop(d);
    Estimate(Val(s), Val(d), BP(m - 1), h, t, h / (t + 1));
    if count == j + m {
      if t == MAX_DIGIT {
        ai := 0;
      } else {
        ai := nn[j + m - 1] / (t + 1);
      }
    } else {
      if t == MAX_DIGIT {
        ai := nn[j + m];
      } else {
        ai := (nn[j + m - 1] + B * nn[j + m]) / (t + 1) % B;
      }
    }
    assert ai == h / (t + 1);
  }

  /** The division loop: q[..nd - m + 1) receives the quotient and nn the remainder. */
  method DivLoop(q: array<Digit>, nn: array<Digit>, count: nat, nd: nat, dd: array<Digit>, m: nat, t: Digit)
    requires nn != dd && q != nn && q != dd
    requires 0 < m <= dd.Length && m <= nd <= count <= nn.Length && nd - m < q.Length
    requires t == dd[m - 1] && B <= 2 * (t as int)
    requires forall k :: nd <= k < count ==> nn[k] == 0
    modifies q, nn
    ensures Val(q[..nd - m + 1]) * Val(dd[..m]) + Val(nn[..nd]) == old(Val(nn[..nd]))
    ensures Val(nn[..nd]) < Val(dd[..m])
  {
    hide BP, Val;
    ghost var n, d, len := nn[..nd], Val(dd[..m]), nd - m + 1;
    var j := nd - m + 1;
    TopPart(n, dd[..m]);
    ValZero(q[j..len]);
    assert nn[j..nd] == n[j..];
    while j > 0
      invariant 0 <= j <= len
      invariant dd[..m] == old(dd[..m])
      invariant forall k :: nd <= k < count ==> nn[k] == 0
      invariant forall k :: 0 <= k < j ==> nn[k] == n[k]
      invariant Val(q[j..len]) * d + Val(nn[j..nd]) == Val(n[j..])
      invariant Val(nn[j..nd]) < d
    {
      j := j - 1;
      ghost var r, u, high := nn[j..nd], q[j + 1..len], Val(nn[j + 1..nd]);
      TailStep(r, 0);
      assert r[0..] == r && r[1..] == nn[j + 1..nd];
      TailStep(n, j);
      var ai, corrections := QuotientDigit(nn, count, nd, j, dd, m, t);
      q[j] := ai;
      DivStep(q[j..len], u, ai, d, Val(nn[j..nd]), high, n, j);
    }
    assert q[0..len] == q[..len] && nn[0..nd] == nn[..nd] && n[0..] == n;
  }

  lemma TopPart(n: seq<Digit>, d: seq<Digit>)
    requires d != [] && B <= 2 * (d[|d| - 1] as int) && |d| <= |n|
    ensures Val(n[|n| - |d| + 1..]) < Val(d)
  {
    hide BP, Val;
    ValBound(n[|n| - |d| + 1..]);
    ValTop(d);
    MulMono(BP(|d| - 1), 1, d[|d| - 1]);
  }

  lemma DivStep(q: seq<Digit>, u: seq<Digit>, ai: Digit, d: nat, left: nat, high: nat, n: seq<Digit>, j: nat)
    requires j < |n| && q == [ai] + u
    requires Val(u) * d + high == Val(n[j + 1..])
    requires ai * d + left == n[j] + B * high
    ensures Val(q) * d + left == Val(n[j..])
  {
    hide BP, Val;
    TailStep(n, j);
    TailStep(q, 0);
    assert q[0..] == q && q[1..] == u;
    Distribute(d, ai, B * Val(u));
    assert d * (B * Val(u)) == B * (Val(u) * d);
  }

  /** What a remainder argument has to be beside an operand a. */
  ghost predicate Slot(remainder: Bn?, a: Bn)
    reads remainder
  {
    remainder != null ==> remainder.Shape() && (remainder == a || remainder.Apart(a))
  }

  /** The remainder argument can hold any number of n digits. */
  ghost predicate Holds(remainder: Bn?, bn: Bn, n: nat)
    reads remainder
  {
    remainder == null || remainder == bn || remainder.count >= n
  }

  function Written(remainder: Bn?): set<object>
    reads remainder
  {
    if remainder == null then {} else {remainder, remainder.num}
  }

  /** bn_div: bn /= d and remainder = bn % d. The remainder may be the dividend or the divisor. */
  method Div(bn: Bn, d: Bn, remainder: Bn?) returns (status: Status)
    requires bn.Valid() && d.Valid() && (bn == d || bn.Apart(d)) && Slot(remainder, bn) && Slot(remainder, d)
    modifies bn`digits, bn.num, Written(remainder)
    ensures bn.Shape() && bn.count == old(bn.count)
    ensures remainder != null ==> remainder.Shape() && remainder.count == old(remainder.count)
    ensures old(d.V()) == 0 ==> status == EINVAL
    ensures old(d.V() > 0 && (bn.digits < bn.count || bn.V() <= d.V()) && Holds(remainder, bn, d.digits))
      ==> status.Ok?
    ensures status.Ok? && bn != remainder ==> bn.Valid() && bn.V() == old(bn.V()) / old(d.V())
    ensures status.Ok? && remainder != null ==> remainder.Valid() && remainder.V() == old(bn.V()) % old(d.V())
  {
    hide BP, Val, Pow2;
    bn.Bounds();
    d.Bounds();
    ghost var n, v := bn.V(), d.V();
    if d.IsZero() { return EINVAL; }
    if bn == d {
      status := DivEqual(bn, remainder);
      DivModUnique(n, v, 1, 0);
      return;
    }
    var c := bn.Cmp(d);
    if c == 0 {
      status := DivEqual(bn, remainder);
      DivModUnique(n, v, 1, 0);
      return;
    }
    if c < 0 {
      DivModUnique(n, v, 0, n);
      FewerDigits(bn, d);
      status := Ok;
      if bn != remainder {
        if remainder != null { status := remainder.Assign(bn); }
        bn.AssignZero();
      }
      return;
    }
    status := DivLong(bn, d, remainder);
  }

  lemma FewerDigits(a: Bn, b: Bn)
    requires a.Valid() && b.Valid() && a.V() <= b.V()
    ensures a.digits <= b.digits
  {
    hide BP, Val;
    a.Bounds();
    b.Bounds();
    if a.digits > b.digits { BPMonotonic(b.digits, a.digits - 1); }
  }

  /** The equal operands of bn_div: quotient one, remainder zero. */
  method DivEqual(bn: Bn, remainder: Bn?) returns (status: Status)
    requires bn.Shape() && Slot(remainder, bn)
    modifies bn`digits, bn.num, Written(remainder)
    ensures status == Ok && bn.Shape() && bn.count == old(bn.count)
    ensures bn != remainder ==> bn.Valid() && bn.V() == 1
    ensures remainder != null ==> remainder.Valid() && remainder.V() == 0 && remainder.count == old(remainder.count)
  {
    if bn != remainder {
      status := bn.AssignDigit(1);
    }
    if remainder != null { remainder.AssignZero(); }
    status := Ok;
  }

  /** The main case of bn_div: the dividend is above the divisor. */
  method DivLong(bn: Bn, d: Bn, remainder: Bn?) returns (status: Status)
    requires bn.Valid() && d.Valid() && bn.Apart(d) && bn.V() > d.V() > 0
    requires Slot(remainder, bn) && Slot(remainder, d)
    modifies bn`digits, bn.num, Written(remainder)
    ensures bn.Shape() && bn.count == old(bn.count)
    ensures remainder != null ==> remainder.Shape() && remainder.count == old(remainder.count)
    ensures old(bn.digits < bn.count && Holds(remainder, bn, d.digits)) ==> status.Ok?
    ensures status.Ok? && bn != remainder ==> bn.Valid() && bn.V() == old(bn.V()) / old(d.V())
    ensures status.Ok? && remainder != null ==> remainder.Valid() && remainder.V() == old(bn.V()) % old(d.V())
  {
    hide BP, Val, Pow2;
    FewerDigits(d, bn);
    d.Bounds();
    ghost var n, v, k := bn.V(), d.V(), d.digits;
    var shift: nat, nn: Bn, dd: Bn;
    status, shift, nn, dd := Normalize(bn, d);
    if !status.Ok? { return; }
    DivScaled(bn, nn, dd);
    ScaledBack(n, v, Pow2(shift), bn.V(), nn.V());
    if remainder != null {
      status := ReturnRemainder(nn, shift, remainder);
      DigitsOf(nn, k, v);
    }
  }

  /** Both operands of bn_div, scaled so that the divisor's top bit is set. */
  method Normalize(bn: Bn, d: Bn) returns (status: Status, shift: nat, nn: Bn, dd: Bn)
    requires bn.Valid() && d.Valid() && bn.V() > d.V() > 0
    ensures bn.digits < bn.count ==> status.Ok?
    ensures shift < W && fresh(nn) && fresh(nn.num) && fresh(dd) && fresh(dd.num) && nn.Apart(dd)
    ensures status.Ok? ==> nn.Valid() && nn.Clear() && nn.count == bn.count && nn.V() == Pow2(shift) * bn.V()
    ensures status.Ok? ==> dd.Valid() && dd.digits > 0 && B <= 2 * (dd.num[dd.digits - 1] as int)
    ensures status.Ok? ==> dd.V() == Pow2(shift) * d.V() <= nn.V()
  {
    hide BP, Val, Pow2;
    bn.Bounds();
    d.Bounds();
    status := Ok;
    shift := DigitClz(d.num[d.digits - 1]);
    ShiftRoom(d.num[..d.digits], shift, shift);
    BPMonotonic(d.digits, d.count);
    MulMono(Pow2(shift), d.V(), bn.V());
    if bn.count == bn.digits {
      var free := DigitClz(bn.num[bn.digits - 1]);
      if shift > free {
        status := EOVERFLOW;
        nn := new Bn();
        dd := new Bn();
        return;
      }
      ShiftRoom(bn.num[..bn.digits], shift, free);
    } else {
      ShiftFits(bn.V(), bn.digits, shift, bn.count, bn.count);
    }
    dd := Scaled(d, shift);
    NormalizedTop(d.num[..d.digits], dd.num[..dd.digits], shift);
    nn := Scaled(bn, shift);
  }

  /** The end of bn_div: the remainder is shifted back and assigned. */
  method ReturnRemainder(nn: Bn, shift: nat, remainder: Bn) returns (status: Status)
    requires nn.Shape() && remainder.Shape() && nn.Apart(remainder) && shift < W
    modifies nn`digits, nn.num, remainder`digits, remainder.num
    ensures nn.Valid() && remainder.Shape() && nn.V() == old(nn.V()) / Pow2(shift)
    ensures status == if nn.digits <= remainder.count then Ok else EOVERFLOW
    ensures status.Ok? ==> remainder.Valid() && remainder.V() == nn.V()
  {
    hide BP, Val, Pow2;
    nn.UpdateDigits(nn.digits);
    nn.RShift(shift);
    status := remainder.Assign(nn);
  }

  lemma DigitsOf(a: Bn, k: nat, v: nat)
    requires a.Valid() && a.V() < v < BP(k)
    ensures a.digits <= k
  {
    hide BP, Val;
    a.Bounds();
    if a.digits > k { BPMonotonic(k, a.digits - 1); }
  }

  lemma DigitsFit(x: Bn, count: nat)
    requires x.Valid()
    ensures x.V() < BP(count) <==> x.digits <= count
  {
    hide Val, BP;
    x.Bounds();
    if x.digits <= count { BPMonotonic(x.digits, count); } else { BPMonotonic(count, x.digits - 1); }
  }

  /** Shifting by no more than the free bits of the top digit. */
  lemma ShiftRoom(s: seq<Digit>, shift: nat, free: nat)
    requires s != [] && shift <= free < W && s[|s| - 1] * Pow2(free) < B
    ensures Pow2(shift) * Val(s) < BP(|s|)
  {
    hide BP, Val, Pow2;
    Pow2Monotonic(shift, free);
    DigitParts(free);
    ValTop(s);
    BPStep(|s| - 1);
    MulMono(Val(s), Pow2(shift), Pow2(free));
    ShiftRoomAlgebra(Pow2(free), Pow2(W - free), s[|s| - 1], BP(|s| - 1), Val(s));
  }

  lemma ShiftRoomAlgebra(p: nat, q: nat, t: nat, w: nat, v: nat)
    requires p > 0 && p * q == B && t * p < B && v < w * (t + 1)
    ensures p * v < B * w
  {
    if t >= q { MulMono(p, q, t); }
    MulMono(w, t + 1, q);
    MulMono(p, v + 1, w * q);
    Distribute(p, v, 1);
    assert p * (w * q) == w * (p * q);
  }

  /** A copy of src shifted left within its own count. */
  method Scaled(src: Bn, shift: nat) returns (x: Bn)
    requires src.Valid() && shift < W && Pow2(shift) * src.V() < BP(src.count)
    ensures fresh(x) && fresh(x.num) && x.Valid() && x.Clear() && x.count == src.count
    ensures x.V() == Pow2(shift) * src.V()
  {
    hide BP, Val, Pow2;
    x := new Bn();
    x.AssignInit(src);
    x.InitDigits(x.count);
    x.LShift(shift);
    SmallMod(Pow2(shift) * src.V(), BP(src.count));
  }

  /** The divisor keeps its length and gets its top bit set. */
  lemma NormalizedTop(s: seq<Digit>, r: seq<Digit>, shift: nat)
    requires s != [] && B / 2 <= s[|s| - 1] * Pow2(shift) && (r != [] ==> r[|r| - 1] != 0)
    requires Val(r) == Pow2(shift) * Val(s) < BP(|s|)
    ensures |r| == |s| && B <= 2 * (r[|r| - 1] as int)
  {
    hide BP, Val, Pow2;
    var k := |s| - 1;
    ValTop(s);
    TopHalf(Pow2(shift), BP(k), s[k], Val(s));
    TopDigit(r, k);
  }

  lemma TopHalf(p: nat, w: nat, t: nat, v: nat)
    requires w * t <= v && B / 2 <= t * p
    ensures p * v >= w * (B / 2)
  {
    MulMono(p, w * t, v);
    MulMono(w, B / 2, t * p);
    assert p * (w * t) == w * (t * p);
  }

  lemma TopDigit(r: seq<Digit>, k: nat)
    requires BP(k) * (B / 2) <= Val(r) < BP(k + 1) && (r != [] ==> r[|r| - 1] != 0)
    ensures |r| == k + 1 && B <= 2 * (r[k] as int)
  {
    hide BP, Val;
    ValBound(r);
    if |r| <= k { BPMonotonic(|r|, k); }
    if |r| > k + 1 {
      TopNonZero(r);
      BPMonotonic(k + 1, |r| - 1);
    }
    ValTop(r);
    if r[k] < B / 2 { MulMono(BP(k), r[k] + 1, B / 2); }
  }

  /** Long division of the scaled operands. */
  method DivScaled(bn: Bn, nn: Bn, dd: Bn)
    requires bn.Shape() && nn.Valid() && dd.Valid() && nn.Clear()
    requires bn.Apart(nn) && bn.Apart(dd) && nn.Apart(dd) && nn.count == bn.count
    requires dd.digits > 0 && B <= 2 * (dd.num[dd.digits - 1] as int) && nn.V() >= dd.V()
    modifies bn`digits, bn.num, nn.num
    ensures bn.Valid() && nn.Shape()
    ensures bn.V() * dd.V() + nn.V() == old(nn.V()) && nn.V() < dd.V()
  {
    hide BP, Val;
    FewerDigits(dd, nn);
    var t := dd.num[dd.digits - 1];
    bn.AssignZero();
    DivLoop(bn.num, nn.num, nn.count, nn.digits, dd.num, dd.digits, t);
    bn.UpdateDigits(1 + nn.digits - dd.digits);
  }

  lemma ScaledBack(n: nat, v: nat, p: nat, q: nat, r: nat)
    requires p > 0 && v > 0 && q * (p * v) + r == p * n && r < p * v
    ensures n / v == q && n % v == r / p
  {
    var left := n - q * v;
    assert p * left == r by {
      Distribute(p, n, -(q * v));
      assert q * (p * v) == p * (q * v);
    }
    if left < 0 { MulMono(p, left, -1); }
    if left >= v { MulMono(p, v, left); }
    DivModUnique(n, v, q, left);
    ExactMultiple(r, p, left);
  }
}
