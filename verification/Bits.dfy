/** Bits and splits of digit sequences. */
module Bits {
  import opened Common
  import opened Numbers
  import opened Digits
  import opened Shifts

  lemma Pow2One()
    ensures Pow2(1) == 2
  {}

  /** Two splits of one number at the same weight agree. */
  lemma SplitUnique(p: int, low: int, high: int, low': int, high': int)
    requires 0 <= low < p && 0 <= low' < p && low + Mul(p, high) == low' + Mul(p, high')
    ensures low == low' && high == high'
  {
    hide Mul;
    MulOrder(p, high, high');
    MulOrder(p, high', high);
  }

  lemma TopBits(s: seq<Digit>, n: nat)
    requires s != [] && n < W && B / 2 <= s[|s| - 1] * Pow2(n) < B
    ensures Pow2(W * |s| - n - 1) <= Val(s) < Pow2(W * |s| - n)
  {
    hide Pow2, BP, Val;
    var t: int, k: nat := s[|s| - 1], W - n;
    var i := W * (|s| - 1);
    ValTop(s);
    BPIsPow2(|s| - 1);
    BaseIsPow2();
    Pow2Add(n, k);
    Pow2Add(n, k - 1);
    Pow2Add(1, k - 1);
    Pow2One();
    var p, q, h := Pow2(n), Pow2(k), Pow2(k - 1);
    assert p * q == B && q == 2 * h && p * h == B / 2 by { MulAssociative(2, p, h); }
    assert t < q by { if t >= q { MulMono(p, q, t); } }
    assert h <= t by { if t < h { MulMono(p, t + 1, h); Distribute(p, t, 1); } }
    Pow2Add(i, k);
    Pow2Add(i, k - 1);
    MulMono(BP(|s| - 1), t + 1, q);
    MulMono(BP(|s| - 1), h, t);
  }

  lemma LowBits(s: seq<Digit>, i: nat, n: nat)
    requires i < |s| && AllZero(s[..i]) && n < W
    requires s[i] % Pow2(n) == 0 && s[i] / Pow2(n) % 2 == 1
    ensures Val(s) % Pow2(W * i + n) == 0 && Val(s) / Pow2(W * i + n) % 2 == 1
  {
    hide Pow2, BP, Val, Mul;
    var low, high := LowHigh(s, i);
    ValZero(s[..i]);
    TailStep(s, i);
    BPIsPow2(i);
    Pow2Mul(W * i, n);
    HalfDigit(n);
    var p, q, h := Pow2(n), Pow2(W - n - 1), s[i] / Pow2(n);
    MulQuotient(s[i], p);
    var k := h + 2 * Mul(q, Val(s[i + 1..]));
    LowBitsAlgebra(p, q, h, Val(s[i + 1..]), s[i]);
    MulAssoc(BP(i), p, k);
    MulDivides(Val(s), Pow2(W * i + n), k);
  }

  lemma Pow2Mul(a: nat, b: nat)
    ensures Pow2(a + b) == Mul(Pow2(a), Pow2(b))
  {
    Pow2Add(a, b);
  }

  lemma LowBitsAlgebra(p: int, q: int, h: int, high: int, d: int)
    requires d == Mul(p, h) && Mul(p, 2 * q) == B
    ensures d + B * high == Mul(p, h + 2 * Mul(q, high))
  {
    MulAssociative(p, 2 * q, high);
    MulAssociative(2, q, high);
    Distribute(p, h, 2 * (q * high));
  }

  lemma HalfDigit(k: nat)
    requires k < W
    ensures Pow2(k) * (2 * Pow2(W - k - 1)) == B == Mul(Pow2(k), 2 * Pow2(W - k - 1))
  {
    hide Pow2;
    DigitParts(k);
    Pow2Add(1, W - k - 1);
    Pow2One();
  }

  /** A bit of a number is a bit of one of its digits. */
  lemma BitOf(s: seq<Digit>, bit: nat)
    requires bit < W * |s|
    ensures Bit(Val(s), bit) == Bit(s[bit / W], bit % W)
  {
    hide Pow2, BP, Val;
    var i, k := bit / W, bit % W;
    ValSplit(s, i);
    ValBound(s[..i]);
    BPIsPow2(i);
    DropLow(Val(s[..i]), BP(i), Val(s[i..]));
    DivDiv(Val(s), BP(i), Pow2(k));
    Pow2Add(W * i, k);
    TailStep(s, i);
    HalfDigit(k);
    var above := BitOfLowDigit(s[i], Pow2(k), Pow2(W - k - 1), Val(s[i + 1..]));
    SameParity(Val(s) / Pow2(bit), s[i] / Pow2(k), above);
  }

  lemma SameParity(x: int, h: int, k: int)
    requires x == h + 2 * k
    ensures x % 2 == h % 2
  {}

  lemma BitOfLowDigit(d: nat, p: nat, q: nat, high: nat) returns (above: int)
    requires p > 0 && Mul(p, 2 * q) == B
    ensures (d + B * high) / p == d / p + 2 * above
  {
    hide Mul;
    var h, r := d / p, d % p;
    MulQuotient(d, p);
    above := Mul(q, high);
    LowDigitSplit(d, p, q, h, r, high);
    QuotientIs(d + B * high, p, h + 2 * above, r);
  }

  lemma LowDigitSplit(d: int, p: int, q: int, h: int, r: int, high: int)
    requires d == Mul(p, h) + r && Mul(p, 2 * q) == B
    ensures d + B * high == Mul(p, h + 2 * Mul(q, high)) + r
  {
    LowBitsAlgebra(p, q, h, high, Mul(p, h));
  }

  lemma QuotientIs(n: int, d: nat, q: int, r: int)
    requires d > 0 && 0 <= r < d && n == Mul(d, q) + r
    ensures n / d == q && n % d == r
  {
    DivModUnique(n, d, q, r);
  }

  lemma NoBit(s: seq<Digit>, bit: nat)
    requires W * |s| <= bit
    ensures Bit(Val(s), bit) == 0
  {
    hide Pow2, BP, Val;
    ValBound(s);
    BPIsPow2(|s|);
    Pow2Monotonic(W * |s|, bit);
    DivModUnique(Val(s), Pow2(bit), 0, Val(s));
  }

  /** Setting a clear bit of a digit, or clearing a set one, stays within the digit. */
  lemma BitRoom(d: Digit, k: nat)
    requires k < W
    ensures Bit(d, k) == 1 ==> d >= Pow2(k)
    ensures Bit(d, k) == 0 ==> d + Pow2(k) < B
  {
    hide Pow2;
    HalfDigit(k);
    ParityRoom(d, Pow2(k), Pow2(W - k - 1), d / Pow2(k), d % Pow2(k));
  }

  lemma ParityRoom(d: nat, p: nat, q: nat, h: nat, r: nat)
    requires p * (2 * q) == B && d == p * h + r && r < p && d < B
    ensures h % 2 == 1 ==> d >= p
    ensures h % 2 == 0 ==> d + p < B
  {
    if h >= 2 * q { MulMono(p, 2 * q, h); }
    if h % 2 == 1 {
      MulMono(p, 1, h);
    } else {
      MulMono(p, h + 2, 2 * q);
      Distribute(p, h, 2);
    }
  }

  lemma ReplaceDigit(s: seq<Digit>, i: nat, y: Digit)
    requires i < |s|
    ensures Val(s[i := y]) == Val(s) + BP(i) * (y as int - s[i])
  {
    hide BP, Val;
    var r := s[i := y];
    ValSplit(r, i + 1);
    ValSplit(s, i + 1);
    ValPrefixStep(r, i);
    ValPrefixStep(s, i);
    assert r[..i] == s[..i] && r[i + 1..] == s[i + 1..];
    Distribute(BP(i), s[i], y as int - s[i]);
  }

  /** A change that fits the low m digits leaves whatever is above them alone. */
  lemma KeepGarbage(s: seq<Digit>, r: seq<Digit>, m: nat, x: int, c: int)
    requires |r| == |s| && m <= |s|
    requires Val(r) + Mul(BP(|s|), c) == Val(s) + x
    requires m < |s| ==> 0 <= Val(s[..m]) + x < BP(m)
    ensures Val(r[..m]) + Mul(BP(|s|), c) == Val(s[..m]) + x
    ensures m < |s| ==> c == 0
  {
    hide BP, Val, Mul;
    MulZero(BP(|s|));
    if m == |s| {
      assert s[..m] == s && r[..m] == r;
    } else {
      KeepHigh(s, r, m, x, c);
    }
  }

  lemma KeepHigh(s: seq<Digit>, r: seq<Digit>, m: nat, x: int, c: int)
    requires |r| == |s| && m < |s|
    requires Val(r) + Mul(BP(|s|), c) == Val(s) + x
    requires 0 <= Val(s[..m]) + x < BP(m)
    ensures c == 0 && Val(r[..m]) == Val(s[..m]) + x
  {
    hide BP, Val;
    hide Mul;
    var lowR, highR := LowHigh(r, m);
    var lowS, highS := LowHigh(s, m);
    var p, q := BP(m), BP(|s| - m);
    BPMul(m, |s| - m);
    MulAssoc(p, q, c);
    MulSum(p, highR, Mul(q, c));
    SplitUnique(p, lowR, highR + Mul(q, c), lowS + x, highS);
    MulOrder(q, 0, c);
    MulOrder(q, c, 0);
    MulZero(q);
  }

  lemma MulZero(q: int)
    ensures Mul(q, 0) == 0
  {}

  /** A shift that fits into d digits. */
  lemma ShiftFits(v: nat, n: nat, bits: nat, d: nat, count: nat)
    requires v < BP(n) && n + 1 + bits / W <= d <= count
    ensures Pow2(bits) * v < BP(d)
    ensures Pow2(bits) * v % BP(d) == Pow2(bits) * v == Pow2(bits) * v % BP(count)
  {
    hide Pow2, BP;
    var k := 1 + bits / W;
    Pow2Monotonic(bits, W * k);
    BPIsPow2(k);
    MulBelow(Pow2(bits), v, BP(k), BP(n));
    BPAdd(k, n);
    BPMonotonic(n + k, d);
    BPMonotonic(d, count);
    SmallMod(Pow2(bits) * v, BP(d));
    SmallMod(Pow2(bits) * v, BP(count));
  }

  /** A digit with bit k set or cleared: `d | (1 << k)`, `d & ~(1 << k)`. */
  function BitWritten(d: Digit, k: nat, val: bool): Digit
    requires k < W
  {
    BitRoom(d, k);
    if val then (if Bit(d, k) == 1 then d else d + Pow2(k))
    else (if Bit(d, k) == 1 then d - Pow2(k) else d)
  }

  lemma BitWrittenVal(s: seq<Digit>, bit: nat, val: bool)
    requires bit < W * |s|
    ensures Val(s[bit / W := BitWritten(s[bit / W], bit % W, val)])
      == Val(s) + (if val then Pow2(bit) else 0) - Pow2(bit) * Bit(Val(s), bit)
  {
    hide Pow2, BP, Val, Bit;
    var i, k := bit / W, bit % W;
    var b: int := Bit(s[i], k);
    var e := (if val then 1 else 0) - b;
    BitOf(s, bit);
    ReplaceDigit(s, i, BitWritten(s[i], k, val));
    BPIsPow2(i);
    Pow2Add(W * i, k);
    assert BitWritten(s[i], k, val) as int - s[i] == Pow2(k) * e;
    MulAssociative(BP(i), Pow2(k), e);
    Distribute(Pow2(bit), e, b);
  }

  lemma SumFits(u: nat, v: nat, i: nat, j: nat)
    requires u < BP(i) && v < BP(j)
    ensures u + v < BP(Max(i, j) + 1)
  {
    BPMonotonic(i, Max(i, j));
    BPMonotonic(j, Max(i, j));
  }
}
