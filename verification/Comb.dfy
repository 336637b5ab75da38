/** The columns of the comb methods: bn_combo_column_get of include/math/big_num.h and the arithmetic
    that makes the columns of a number add up to the number. */
module Comb {
  import opened Numbers
  import opened Digits
  import opened Shifts
  import opened Bits
  import opened BigNum

  /** Bits off, off + wc, ... of v, w of them, as one number. */
  function Column(v: nat, off: nat, w: nat, wc: nat): nat
    decreases w
  {
    if w == 0 then 0 else Bit(v, off) + 2 * Column(v, off + wc, w - 1, wc)
  }

  lemma {:induction false} ColumnBound(v: nat, off: nat, w: nat, wc: nat)
    ensures Column(v, off, w, wc) < Pow2(w)
    decreases w
  {
    hide Bit;
    if w > 0 { ColumnBound(v, off + wc, w - 1, wc); }
  }

  /** The bits of k spread wc places apart: the sum of 2^(b * wc) over the set bits b of k. */
  function Spread(k: nat, wc: nat): nat
  {
    if k == 0 then 0 else k % 2 + Pow2(wc) * Spread(k / 2, wc)
  }

  lemma SpreadStep(b: nat, k: nat, wc: nat)
    requires b < 2
    ensures Spread(b + 2 * k, wc) == b + Pow2(wc) * Spread(k, wc)
  {
    var n := b + 2 * k;
    assert n / 2 == k && n % 2 == b;
  }

  /** The value of a column in its own places. */
  function ColumnSum(v: nat, off: nat, w: nat, wc: nat): nat
  {
    Spread(Column(v, off, w, wc), wc)
  }

  lemma ColumnSumStep(v: nat, off: nat, w: nat, wc: nat)
    requires w > 0
    ensures ColumnSum(v, off, w, wc) == Bit(v, off) + Mul(Pow2(wc), ColumnSum(v, off + wc, w - 1, wc))
  {
    hide Bit, Spread, Pow2;
    SpreadStep(Bit(v, off), Column(v, off + wc, w - 1, wc), wc);
  }

  /** Spreading the highest bit of an index, and the bits below it. */
  lemma {:induction false} SpreadTop(i: nat, j: nat, wc: nat)
    requires j < Pow2(i)
    ensures Spread(Pow2(i) + j, wc) == Spread(Pow2(i), wc) + Spread(j, wc)
    ensures Spread(Pow2(i), wc) == Pow2(i * wc)
  {
    hide Spread;
    if i == 0 {
      SpreadStep(1, 0, wc);
      SpreadZero(wc);
    } else {
      var q, p := Pow2(i - 1), Pow2(wc);
      SpreadTop(i - 1, j / 2, wc);
      SpreadStep(j % 2, q + j / 2, wc);
      SpreadStep(j % 2, j / 2, wc);
      SpreadStep(0, q, wc);
      Distribute(p, Spread(q, wc), Spread(j / 2, wc));
      assert i * wc == wc + (i - 1) * wc by { Distribute(wc, i, -1); }
      Pow2Add(wc, (i - 1) * wc);
    }
  }

  lemma SpreadZero(wc: nat)
    ensures Spread(0, wc) == 0
  {}

  /** n bits of v from bit off on. */
  function Row(v: nat, off: nat, n: nat): nat
  {
    v / Pow2(off) % Pow2(n)
  }

  /** n bits of each of w rows that are wc apart, the rows in their own places. */
  function Rows(v: nat, off: nat, n: nat, w: nat, wc: nat): nat
    decreases w
  {
    if w == 0 then 0 else Row(v, off, n) + Mul(Pow2(wc), Rows(v, off + wc, n, w - 1, wc))
  }

  /** The rows without their first column. */
  lemma {:induction false} RowsStep(v: nat, off: nat, n: nat, w: nat, wc: nat)
    requires n > 0
    ensures Rows(v, off, n, w, wc) == ColumnSum(v, off, w, wc) + 2 * Rows(v, off + 1, n - 1, w, wc)
    decreases w
  {
    hide Bit, Spread, Pow2, Mul, Column, ColumnSum, Row;
    if w == 0 {
      ColumnSumNone(v, off, wc);
    } else {
      RowsStep(v, off + wc, n, w - 1, wc);
      ColumnSumStep(v, off, w, wc);
      FirstBit(v, off, n);
      var rest := Rows(v, off + 1 + wc, n - 1, w - 1, wc);
      MulSum(Pow2(wc), ColumnSum(v, off + wc, w - 1, wc), 2 * rest);
      MulTwice(Pow2(wc), rest);
    }
  }

  lemma ColumnSumNone(v: nat, off: nat, wc: nat)
    ensures ColumnSum(v, off, 0, wc) == 0
  {}

  lemma MulTwice(p: int, x: int)
    ensures Mul(p, 2 * x) == 2 * Mul(p, x)
  {}

  lemma FirstBit(v: nat, off: nat, n: nat)
    requires n > 0
    ensures Row(v, off, n) == Bit(v, off) + 2 * Row(v, off + 1, n - 1)
  {
    hide Pow2;
    DivDiv(v, Pow2(off), 2);
    Pow2Add(off, 1);
    Pow2One();
    Pow2Add(1, n - 1);
    DivNat(v, Pow2(off));
    ModSplit(v / Pow2(off), 2, Pow2(n - 1));
  }

  /** A remainder modulo p * q, from the remainders modulo p and q. */
  lemma ModSplit(x: nat, p: nat, q: nat)
    requires p > 0 && q > 0
    ensures p * q > 0 && x % (p * q) == x % p + p * (x / p % q)
  {
    hide Mul;
    var y, r, s := x / p, x % p, x / p % q;
    DivNat(x, p);
    MulQuotient(x, p);
    MulQuotient(y, q);
    MulIs(p, q);
    MulIs(p, s);
    MulSum(p, Mul(q, y / q), s);
    MulAssoc(p, q, y / q);
    MulOrder(p, 0, q);
    MulOrder(p, 0, s);
    MulZero(p);
    MulOrder(p, s, q);
    QuotientIs(x, p * q, y / q, Mul(p, s) + r);
  }

  lemma {:induction false} RowsNone(v: nat, off: nat, w: nat, wc: nat)
    ensures Rows(v, off, 0, w, wc) == 0
    decreases w
  {
    if w > 0 {
      RowsNone(v, off + wc, w - 1, wc);
      DivNat(v, Pow2(off));
    }
  }

  /** Rows of full width are a remainder of the number. */
  lemma {:induction false} RowsAll(v: nat, off: nat, w: nat, wc: nat)
    ensures Rows(v, off, wc, w, wc) == v / Pow2(off) % Pow2(w * wc)
    decreases w
  {
    hide Pow2, Mul;
    DivNat(v, Pow2(off));
    if w == 0 {
      Pow2Zero();
      assert w * wc == 0;
    } else {
      RowsAll(v, off + wc, w - 1, wc);
      Distribute(wc, w, -1);
      Pow2Add(wc, (w - 1) * wc);
      Pow2Add(off, wc);
      DivDiv(v, Pow2(off), Pow2(wc));
      ModSplit(v / Pow2(off), Pow2(wc), Pow2((w - 1) * wc));
      MulIs(Pow2(wc), Rows(v, off + wc, wc, w - 1, wc));
    }
  }

  /** All rows of a number that w rows can hold. */
  lemma RowsWhole(v: nat, w: nat, wc: nat)
    requires v < Pow2(w * wc)
    ensures Rows(v, 0, wc, w, wc) == v
  {
    RowsAll(v, 0, w, wc);
    SmallMod(v, Pow2(w * wc));
  }

  lemma ColumnMore(v: nat, off: nat, t: nat, wc: nat)
    ensures Column(v, off, t + 1, wc) == Bit(v, off) + 2 * Column(v, off + wc, t, wc)
    ensures Column(v, off, 0, wc) == 0
  {}

  /** The test of one bit; bits beyond the digits are zero. */
  method ReadBit(bn: Bn, off: nat) returns (on: bool)
    requires bn.Shape()
    ensures on <==> Bit(bn.V(), off) == 1
  {
    hide BP, Val, Pow2;
    var bitsCnt := bn.digits * W;
    if bitsCnt > off {
      BitOf(bn.num[..bn.digits], off);
      return bn.num[off / W] / Pow2(off % W) % 2 != 0;
    }
    NoBit(bn.num[..bn.digits], off);
    return false;
  }

  lemma MulStep(i: nat, wc: nat)
    ensures Mul(i + 1, wc) == Mul(i, wc) + wc && Mul(i, wc) >= 0 && Mul(0, wc) == 0
  {
    Distribute(wc, i, 1);
    MulMono(wc, 0, i);
  }

  /** bn_combo_column_get: the column of wndBits bits, wndCount apart, whose highest bit is at bitOff. */
  method ComboColumnGet(bn: Bn, bitOff: nat, wndBits: nat, wndCount: nat, ghost low: nat) returns (res: Digit)
    requires bn.Shape() && 0 < wndBits <= W && bitOff == low + Mul(wndBits - 1, wndCount)
    ensures res == Column(bn.V(), low, wndBits, wndCount) && res < Pow2(wndBits)
  {
    hide BP, Val, Pow2, Bit, Mul, Column;
    var r: nat, i: nat, off: int := 0, wndBits, bitOff;
    MulStep(wndBits - 1, wndCount);
    ColumnMore(bn.V(), low + Mul(wndBits, wndCount), 0, wndCount);
    while i > 0
      invariant i <= wndBits && Mul(i, wndCount) >= 0 && off == low + Mul(i, wndCount) - wndCount
      invariant r == Column(bn.V(), low + Mul(i, wndCount), wndBits - i, wndCount)
      decreases i
    {
      MulStep(i - 1, wndCount);
      ColumnMore(bn.V(), off, wndBits - i, wndCount);
      r := r * 2;
      var on := ReadBit(bn, off);
      if on { r := r + 1; }
      i, off := i - 1, off - wndCount;
    }
    MulStep(0, wndCount);
    ColumnBound(bn.V(), low, wndBits, wndCount);
    Pow2Monotonic(wndBits, W);
    BaseIsPow2();
    res := r;
  }
}
