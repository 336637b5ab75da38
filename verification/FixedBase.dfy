/** The affine multiplications of a known point in include/math/elliptic_curve.h: binary, fixed window
    and the two combs, over any abelian group. */
module FixedBase {
  import opened Common
  import opened Numbers
  import opened Digits
  import opened Shifts
  import opened Bits
  import opened BigNum
  import opened Comb
  import opened Groups

  // ----- doubling and the binary method -----

  /** ec_point_affine_dbl_n on k times p. */
  method DblN<G(!new)>(g: Group<G>, point: G, n: nat, ghost k: int, ghost p: G) returns (r: G)
    requires Abelian(g) && point == Scale(g, k, p)
    ensures r == Scale(g, Mul(Pow2(n), k), p)
  {
    hide Abelian, Add, Neg, Scale, Pow2, Mul;
    r := point;
    Pow2Zero();
    MulOne(k);
    for i := 0 to n
      invariant r == Scale(g, Mul(Pow2(i), k), p)
    {
      DoubleMul(i, k);
      ScaleAdd(g, Mul(Pow2(i), k), Mul(Pow2(i), k), p);
      r := Add(g, r, r);
    }
  }

  lemma DoubleMul(i: nat, k: int)
    ensures Mul(Pow2(i + 1), k) == Mul(Pow2(i), k) + Mul(Pow2(i), k)
  {
    Distribute(k, Pow2(i), Pow2(i));
  }

  /** What the low i bits of v contribute, and what the remaining bits stand for. */
  lemma LowBitSum(v: nat, i: nat)
    ensures v % Pow2(i + 1) == v % Pow2(i) + Pow2(i) * Bit(v, i)
    ensures v % Pow2(0) == 0
  {
    hide Pow2;
    Pow2Zero();
    Pow2Add(i, 1);
    Pow2One();
    ModSplit(v, Pow2(i), 2);
  }

  /** ec_point_affine_bin_mult. */
  method BinMult<G(!new, ==)>(g: Group<G>, point: G, d: Bn) returns (r: G)
    requires Abelian(g) && d.Valid()
    ensures r == Scale(g, d.V(), point)
  {
    hide Abelian, Add, Neg, Scale, BP, Val, Pow2, Bit;
    d.Bounds();
    d.OneIff();
    ScaleSmall(g, point);
    if point == g.zero {
      TimesOfZero(g, d.V());
      return point;
    }
    if d.IsZero() { return g.zero; }
    if d.IsOne() { return point; }
    r := BinLoop(g, point, d);
  }

  method BinLoop<G(!new)>(g: Group<G>, point: G, d: Bn) returns (r: G)
    requires Abelian(g) && d.Valid() && d.digits > 0
    ensures r == Scale(g, d.V(), point)
  {
    hide Abelian, Add, Neg, Scale, BP, Val, Pow2, Bit, Mul, LowPart;
    ghost var v := d.V();
    d.Bounds();
    var tm := point;
    r := g.zero;
    ScaleSmall(g, point);
    var bits := d.CalcBits();
    LowPartNext(v, 0);
    Pow2Zero();
    MulOne(1);
    for i := 0 to bits
      invariant r == Scale(g, LowPart(v, i), point)
      invariant tm == Scale(g, Mul(Pow2(i), 1), point)
    {
      LowPartNext(v, i);
      var on := d.IsBitSet(i);
      if on {
        ScaleAdd(g, LowPart(v, i), Mul(Pow2(i), 1), point);
        r := Add(g, r, tm);
      }
      DoubleMul(i, 1);
      ScaleAdd(g, Mul(Pow2(i), 1), Mul(Pow2(i), 1), point);
      tm := Add(g, tm, tm);
    }
    LowPartAll(v, bits);
  }

  /** The low i bits of v. */
  function LowPart(v: nat, i: nat): nat { v % Pow2(i) }

  lemma LowPartNext(v: nat, i: nat)
    ensures LowPart(v, i + 1) == LowPart(v, i) + if Bit(v, i) == 1 then Mul(Pow2(i), 1) else 0
    ensures LowPart(v, 0) == 0
  {
    hide Pow2;
    LowBitSum(v, i);
    MulIs(Pow2(i), 1);
  }

  lemma LowPartAll(v: nat, bits: nat)
    requires v < Pow2(bits)
    ensures LowPart(v, bits) == v
  {
    SmallMod(v, Pow2(bits));
  }

  // ----- fixed window -----

  /** `0 == (w & (w - 1))` for a nonzero w. */
  predicate PowerOfTwo(w: nat)
    requires w > 0
  {
    w == 1 || (w % 2 == 0 && PowerOfTwo(w / 2))
  }

  lemma {:induction false} PowerOfTwoDivides(w: nat, n: nat)
    requires 0 < w <= Pow2(n) && PowerOfTwo(w)
    ensures Pow2(n) % w == 0
  {
    if w > 1 {
      PowerOfTwoDivides(w / 2, n - 1);
      var k := Pow2(n - 1) / (w / 2);
      ExactQuotient(Pow2(n - 1), w / 2);
      assert Pow2(n) == w * k by { MulAssociative(2, w / 2, k); }
      ExactMultiple(Pow2(n), w, k);
    }
  }

  lemma WindowDividesDigit(w: nat)
    requires 0 < w <= W && PowerOfTwo(w)
    ensures W == w * (W / w)
  {
    assert Pow2(6) == 64;
    PowerOfTwoDivides(w, 6);
  }

  /** The first n entries are 1p, 2p, ..., np. */
  ghost predicate Multiples<G>(g: Group<G>, s: seq<G>, n: nat, p: G)
  {
    n <= |s| && forall i :: 0 <= i < n ==> s[i] == Scale(g, i + 1, p)
  }

  /** ec_point_fpx_sl_win_mult_data_t. */
  class WindowData<G(!new)> {
    var wndBits: nat
    const ptArr: array<G>

    constructor (ptArr: array<G>)
      ensures this.ptArr == ptArr
    {
      this.ptArr := ptArr;
    }

    /** The table of the point p. */
    ghost predicate Ready(g: Group<G>, p: G)
      reads this, ptArr
    {
      if wndBits == 0 then p == g.zero
      else wndBits <= W && PowerOfTwo(wndBits) && Multiples(g, ptArr[..], Pow2(wndBits) - 1, p)
    }
  }

  /** ec_point_affine_fpx_sl_win_mult_precompute. */
  method WindowPrecompute<G(!new, ==)>(g: Group<G>, wndBits: nat, point: G, data: WindowData<G>)
    returns (status: Status)
    requires Abelian(g) && wndBits <= W && Pow2(wndBits) - 1 <= data.ptArr.Length
    modifies data, data.ptArr
    ensures status == if wndBits == 0 || !PowerOfTwo(wndBits) then EINVAL else Ok
    ensures status.Ok? ==> data.Ready(g, point)
  {
    hide Abelian, Add, Neg, Scale, PowerOfTwo;
    if wndBits == 0 { return EINVAL; }
    if !PowerOfTwo(wndBits) { return EINVAL; }
    if point == g.zero {
      data.wndBits := 0;
      return Ok;
    }
    var ptCnt := Pow2(wndBits) - 1;
    data.wndBits := wndBits;
    var a := data.ptArr;
    for i := 0 to ptCnt
      invariant data.wndBits == wndBits
      invariant forall k :: 0 <= k < i ==> a[k] == point
    {
      a[i] := point;
    }
    ScaleSmall(g, point);
    for i := 1 to ptCnt
      invariant data.wndBits == wndBits
      invariant forall k :: 0 <= k < i ==> a[k] == Scale(g, k + 1, point)
      invariant forall k :: i <= k < ptCnt ==> a[k] == point
    {
      ScaleNext(g, i, point);
      Comm(g, point, a[i - 1]);
      a[i] := Add(g, a[i], a[i - 1]);
    }
    return Ok;
  }

  /** t windows of a digit are still to come: x, times their weight, and they make up the whole. */
  predicate WindowsLeft(x: int, t: nat, w: nat, digit: nat, whole: int)
  {
    Mul(Pow2(w * t), x) + digit % Pow2(w * t) == whole
  }

  lemma WindowStep(x: int, t: nat, w: nat, digit: nat, whole: int)
    requires t > 0 && WindowsLeft(x, t, w, digit, whole)
    ensures WindowsLeft(Mul(Pow2(w), x) + digit / Pow2((t - 1) * w) % Pow2(w), t - 1, w, digit, whole)
  {
    hide Pow2, Mul;
    var p, q, k := Pow2(w * (t - 1)), Pow2(w), digit / Pow2((t - 1) * w) % Pow2(w);
    assert w * t == w * (t - 1) + w && w * (t - 1) == (t - 1) * w by { Distribute(w, t, -1); }
    Pow2Add(w * (t - 1), w);
    Pow2Mul(w * (t - 1), w);
    ModSplit(digit, p, q);
    MulAssoc(p, q, x);
    MulSum(p, Mul(q, x), k);
    MulIs(p, k);
  }

  lemma WindowsStart(x: nat, w: nat, n: nat, digit: Digit)
    requires w * n == W
    ensures WindowsLeft(x, n, w, digit, digit + B * x)
  {
    BaseIsPow2();
    SmallMod(digit, B);
  }

  lemma WindowsDone(x: int, w: nat, digit: nat, whole: int)
    requires WindowsLeft(x, 0, w, digit, whole)
    ensures x == whole
  {
    Pow2Zero();
    assert w * 0 == 0;
  }

  /** The windows of one digit: k times p becomes k * B + digit times p. */
  method WindowDigit<G(!new)>(g: Group<G>, point: G, data: WindowData<G>, digit: Digit, ghost k: nat, ghost p: G)
    returns (r: G)
    requires Abelian(g) && data.wndBits > 0 && data.Ready(g, p) && point == Scale(g, k, p)
    ensures r == Scale(g, digit + B * k, p)
  {
    hide Abelian, Add, Neg, Scale, Pow2, Mul, PowerOfTwo, WindowsLeft;
    var w := data.wndBits;
    WindowDividesDigit(w);
    var j := W / w;
    ghost var x := k;
    r := point;
    WindowsStart(k, w, j, digit);
    while j > 0
      invariant j >= 0 && x >= 0 && r == Scale(g, x, p) && WindowsLeft(x, j, w, digit, digit + B * k)
    {
      WindowStep(x, j, w, digit, digit + B * k);
      j := j - 1;
      r := DblN(g, r, w, x, p);
      var windex := digit / Pow2(j * w) % Pow2(w);
      ScaleAdd(g, Mul(Pow2(w), x), windex, p);
      MulOrder(Pow2(w), 0, x);
      MulZero(Pow2(w));
      x := Mul(Pow2(w), x) + windex;
      if windex != 0 {
        r := Add(g, r, data.ptArr[..][windex - 1]);
      }
    }
    WindowsDone(x, w, digit, digit + B * k);
  }

  /** ec_point_affine_fpx_sl_win_mult. */
  method WindowMult<G(!new)>(g: Group<G>, data: WindowData<G>, d: Bn, ghost p: G) returns (r: G)
    requires Abelian(g) && d.Valid() && data.Ready(g, p)
    ensures r == Scale(g, d.V(), p)
  {
    hide Abelian, Add, Neg, Scale, BP, Val, Pow2, PowerOfTwo;
    d.Bounds();
    d.OneIff();
    ScaleSmall(g, p);
    if d.IsOne() && data.wndBits != 0 {
      Pow2Monotonic(1, data.wndBits);
      Pow2One();
      return data.ptArr[..][0];
    }
    r := g.zero;
    if d.IsZero() { return; }
    if data.wndBits == 0 {
      TimesOfZero(g, d.V());
      return;
    }
    ghost var s := d.num[..d.digits];
    var i := d.digits;
    assert s[i..] == [];
    ValZero([]);
    while i > 0
      invariant 0 <= i <= d.digits && r == Scale(g, Val(s[i..]), p)
    {
      i := i - 1;
      TailStep(s, i);
      r := WindowDigit(g, r, data, d.num[i], Val(s[i + 1..]), p);
    }
    assert s[0..] == s;
  }

  // ----- combs -----

  /** Entry k - 1 is the sum of 2^(b * wc) p over the set bits b of k, all times `weight`. */
  ghost predicate CombTable<G>(g: Group<G>, s: seq<G>, n: nat, wc: nat, weight: nat, p: G)
  {
    n <= |s| + 1 && forall k :: 0 < k < n ==> s[k - 1] == Scale(g, Mul(weight, Spread(k, wc)), p)
  }

  /** ec_point_fpx_comb1t_mult_data_t and ec_point_fpx_comb2t_mult_data_t; the first uses neither eCount
      nor ptDbl. */
  class CombData<G(!new)> {
    var wndBits: nat
    var wndCount: nat
    var eCount: nat
    const ptAdd: array<G>
    const ptDbl: array<G>

    constructor (ptAdd: array<G>, ptDbl: array<G>)
      ensures this.ptAdd == ptAdd && this.ptDbl == ptDbl
    {
      this.ptAdd, this.ptDbl := ptAdd, ptDbl;
    }

    /** The one-table comb of the point p on a field of m bits. */
    ghost predicate Ready(g: Group<G>, p: G, m: nat)
      reads this, ptAdd
    {
      if wndBits == 0 then p == g.zero
      else
        && wndBits <= W && wndCount > 0 && m <= Mul(wndBits, wndCount)
        && CombTable(g, ptAdd[..], Pow2(wndBits), wndCount, 1, p)
    }

    /** The second table of the two-table comb. */
    ghost predicate Ready2(g: Group<G>, p: G, m: nat)
      reads this, ptAdd, ptDbl
    {
      && Ready(g, p, m)
      && (wndBits > 0 ==>
        && eCount == wndCount / 2 + (if wndCount % 2 != 0 then 1 else 0)
        && CombTable(g, ptDbl[..], Pow2(wndBits), wndCount, Pow2(eCount), p))
    }
  }

  lemma Room(m: nat, w: nat) returns (wc: nat)
    requires m > 0 && w > 0
    ensures wc == m / w + (if m % w != 0 then 1 else 0) && wc > 0 && m <= Mul(w, wc)
  {
    DivNat(m, w);
    wc := m / w + (if m % w != 0 then 1 else 0);
    MulQuotient(m, w);
    MulNext(w, m / w);
    MulZero(w);
  }

  /** ec_point_affine_fpx_comb1t_mult_precompute on a field of m bits. */
  method CombPrecompute<G(!new, ==)>(g: Group<G>, wndBits: nat, point: G, m: nat, data: CombData<G>)
    returns (status: Status)
    requires Abelian(g) && m > 0 && wndBits <= W && Pow2(wndBits) - 1 <= data.ptAdd.Length
    modifies data`wndBits, data`wndCount, data.ptAdd
    ensures status == if wndBits == 0 then EINVAL else Ok
    ensures status.Ok? ==> data.Ready(g, point, m)
    ensures status.Ok? ==> data.wndBits == if point == g.zero then 0 else wndBits
  {
    hide Abelian, Add, Neg, Scale, Pow2, Mul, CombTable;
    if wndBits == 0 { return EINVAL; }
    if point == g.zero {
      data.wndBits := 0;
      return Ok;
    }
    ghost var wc := Room(m, wndBits);
    data.wndBits := wndBits;
    data.wndCount := m / wndBits + (if m % wndBits != 0 then 1 else 0);
    FillCombTable(g, wndBits, point, data.wndCount, data.ptAdd);
    return Ok;
  }

  /** The entries of the first comb table, one index bit after the other. */
  method FillCombTable<G(!new)>(g: Group<G>, wndBits: nat, point: G, wndCount: nat, a: array<G>)
    requires Abelian(g) && 0 < wndBits && Pow2(wndBits) - 1 <= a.Length
    modifies a
    ensures CombTable(g, a[..], Pow2(wndBits), wndCount, 1, point)
  {
    hide Abelian, Add, Neg, Scale, Pow2, Mul, CombTable;
    Pow2Monotonic(1, wndBits);
    Pow2One();
    a[0] := point;
    CombTableStart(g, a[..], wndCount, point);
    for i := 1 to wndBits
      invariant CombTable(g, a[..], Pow2(i), wndCount, 1, point)
    {
      Pow2Monotonic(i + 1, wndBits);
      Pow2Monotonic(1, i);
      Pow2Add(1, i);
      Pow2Add(1, i - 1);
      CombRow(g, point, wndCount, a, i);
    }
  }

  lemma CombTableStart<G(!new)>(g: Group<G>, s: seq<G>, wc: nat, p: G)
    requires Abelian(g) && s != [] && s[0] == p
    ensures CombTable(g, s, 2, wc, 1, p)
  {
    hide Abelian, Add, Scale, Pow2;
    ScaleSmall(g, p);
    SpreadStep(1, 0, wc);
  }

  lemma CombEntry<G(!new)>(g: Group<G>, s: seq<G>, n: nat, wc: nat, weight: nat, p: G, k: nat)
    requires CombTable(g, s, n, wc, weight, p) && 0 < k < n
    ensures s[k - 1] == Scale(g, Mul(weight, Spread(k, wc)), p)
  {}

  /** The entries whose highest index bit is bit i. */
  method CombRow<G(!new)>(g: Group<G>, point: G, wndCount: nat, a: array<G>, i: nat)
    requires Abelian(g) && i > 0 && Pow2(i) + Pow2(i) - 1 <= a.Length && Pow2(i) == 2 * Pow2(i - 1)
    requires CombTable(g, a[..], Pow2(i), wndCount, 1, point)
    modifies a
    ensures CombTable(g, a[..], Pow2(i) + Pow2(i), wndCount, 1, point)
  {
    hide Abelian, Add, Neg, Scale, Pow2, Mul, Spread;
    var iidx := Pow2(i);
    CombEntry(g, a[..], iidx, wndCount, 1, point, Pow2(i - 1));
    TopEntry(i, wndCount);
    ghost var s := a[..];
    a[iidx - 1] := DblN(g, a[Pow2(i - 1) - 1], wndCount, Mul(1, Spread(Pow2(i - 1), wndCount)), point);
    for j := 1 to iidx
      invariant forall k :: 0 <= k < iidx - 1 ==> a[k] == s[k]
      invariant forall k :: iidx <= k < iidx + j ==> a[k - 1] == Scale(g, Mul(1, Spread(k, wndCount)), point)
    {
      SpreadTop(i, j, wndCount);
      MulOne(Spread(j, wndCount));
      MulOne(Spread(iidx, wndCount));
      MulOne(Spread(iidx + j, wndCount));
      assert a[j - 1] == s[j - 1] == Scale(g, Mul(1, Spread(j, wndCount)), point);
      ScaleAdd(g, Spread(j, wndCount), Spread(iidx, wndCount), point);
      a[iidx + j - 1] := Add(g, a[j - 1], a[iidx - 1]);
    }
  }

  /** The top entry of a row is the top entry of the row before, wc doublings on. */
  lemma TopEntry(i: nat, wc: nat)
    requires i > 0
    ensures Mul(Pow2(wc), Mul(1, Spread(Pow2(i - 1), wc))) == Mul(1, Spread(Pow2(i), wc))
  {
    hide Pow2, Spread;
    SpreadTop(i, 0, wc);
    SpreadTop(i - 1, 0, wc);
    Pow2Add(wc, (i - 1) * wc);
    Distribute(wc, i, -1);
  }

  /** One column of a comb is added. */
  method AddColumn<G(!new)>(g: Group<G>, point: G, a: array<G>, d: Bn, bitOff: nat, w: nat, wc: nat,
                            ghost low: nat, ghost weight: nat, ghost k: int, ghost p: G) returns (r: G)
    requires Abelian(g) && d.Shape() && 0 < w <= W && bitOff == low + Mul(w - 1, wc)
    requires CombTable(g, a[..], Pow2(w), wc, weight, p) && point == Scale(g, k, p)
    ensures r == Scale(g, k + Mul(weight, ColumnSum(d.V(), low, w, wc)), p)
  {
    hide Abelian, Add, Neg, Scale, Pow2, Mul, Spread, Column, BP, Val;
    r := point;
    var windex := ComboColumnGet(d, bitOff, w, wc, low);
    if windex != 0 {
      ScaleAdd(g, k, Mul(weight, Spread(windex, wc)), p);
      r := Add(g, r, a[..][windex - 1]);
    } else {
      SpreadZero(wc);
      MulZero(weight);
    }
  }

  /** The scalars that a comb does not multiply by its tables: one, zero, and those of more digits than
      the field. */
  method CombSpecial<G(!new, ==)>(g: Group<G>, data: CombData<G>, d: Bn, m: nat, ghost p: G)
    returns (done: bool, r: G)
    requires Abelian(g) && d.Valid() && data.Ready(g, p, m)
    ensures done ==> r == Scale(g, d.V(), p)
    ensures !done ==> r == g.zero && data.wndBits > 0 && d.V() < Pow2(Mul(data.wndBits, data.wndCount))
  {
    hide Abelian, Add, Neg, Scale, Pow2, Mul, Spread, BP, Val;
    d.Bounds();
    d.OneIff();
    ScaleSmall(g, p);
    if data.wndBits > 0 {
      Pow2Monotonic(1, data.wndBits);
      Pow2One();
      CombEntry(g, data.ptAdd[..], Pow2(data.wndBits), data.wndCount, 1, p, 1);
      SpreadOne(data.wndCount);
    }
    if d.IsOne() && data.wndBits != 0 { return true, data.ptAdd[..][0]; }
    r := g.zero;
    if d.IsZero() { return true, r; }
    if data.wndBits == 0 {
      TimesOfZero(g, d.V());
      return true, r;
    }
    if d.digits * W > m {
      r := BinMult(g, data.ptAdd[..][0], d);
      return true, r;
    }
    BPIsPow2(d.digits);
    Pow2Monotonic(W * d.digits, Mul(data.wndBits, data.wndCount));
    done := false;
  }

  lemma SpreadOne(wc: nat)
    ensures Mul(1, Spread(1, wc)) == 1
  {
    hide Pow2;
    SpreadStep(1, 0, wc);
    SpreadZero(wc);
    MulZero(Pow2(wc));
  }

  /** ec_point_affine_fpx_comb1t_mult. */
  method Comb1Mult<G(!new, ==)>(g: Group<G>, data: CombData<G>, d: Bn, m: nat, ghost p: G) returns (r: G)
    requires Abelian(g) && d.Valid() && data.Ready(g, p, m)
    ensures r == Scale(g, d.V(), p)
  {
    hide Abelian, Add, Neg, Scale, Pow2, Mul, Rows, ColumnSum, BP, Val, CombTable;
    var done: bool;
    done, r := CombSpecial(g, data, d, m, p);
    if done { return; }
    ghost var v, w, wc := d.V(), data.wndBits, data.wndCount;
    MulStep(w - 1, wc);
    var bitOff: int := data.wndBits * data.wndCount - 1;
    MulIs(w, wc);
    ScaleSmall(g, p);
    RowsNone(v, wc, w, wc);
    var i := data.wndCount;
    while i > 0
      invariant 0 <= i <= wc && bitOff == i - 1 + Mul(w - 1, wc)
      invariant r == Scale(g, Rows(v, i, wc - i, w, wc), p)
    {
      i := i - 1;
      ghost var k := Rows(v, i + 1, wc - i - 1, w, wc);
      ScaleAdd(g, k, k, p);
      r := Add(g, r, r);
      RowsStep(v, i, wc - i, w, wc);
      MulOne(ColumnSum(v, i, w, wc));
      r := AddColumn(g, r, data.ptAdd, d, bitOff, data.wndBits, data.wndCount, i, 1, 2 * k, p);
      bitOff := bitOff - 1;
    }
    MulIs(w, wc);
    RowsWhole(v, w, wc);
  }

  /** ec_point_affine_fpx_comb2t_mult_precompute. */
  method Comb2Precompute<G(!new, ==)>(g: Group<G>, wndBits: nat, point: G, m: nat, data: CombData<G>)
    returns (status: Status)
    requires Abelian(g) && m > 0 && wndBits <= W && data.ptAdd != data.ptDbl
    requires Pow2(wndBits) - 1 <= data.ptAdd.Length && Pow2(wndBits) - 1 <= data.ptDbl.Length
    modifies data, data.ptAdd, data.ptDbl
    ensures status == if wndBits == 0 then EINVAL else Ok
    ensures status.Ok? ==> data.Ready2(g, point, m)
  {
    hide Abelian, Add, Neg, Scale, Pow2, Mul, CombTable;
    if wndBits == 0 { return EINVAL; }
    status := CombPrecompute(g, wndBits, point, m, data);
    if data.wndBits == 0 { return; }
    data.eCount := data.wndCount / 2 + (if data.wndCount % 2 != 0 then 1 else 0);
    DoubleTable(g, point, Pow2(wndBits) - 1, data.wndCount, data.eCount, data.ptAdd, data.ptDbl);
  }

  /** The second comb table, from the first. */
  method DoubleTable<G(!new)>(g: Group<G>, point: G, ptCnt: nat, wc: nat, eCount: nat, a: array<G>, b: array<G>)
    requires Abelian(g) && a != b && ptCnt <= b.Length
    requires CombTable(g, a[..], ptCnt + 1, wc, 1, point)
    modifies b
    ensures CombTable(g, b[..], ptCnt + 1, wc, Pow2(eCount), point)
  {
    hide Abelian, Add, Neg, Scale, Pow2, Mul, Spread;
    for i := 0 to ptCnt
      invariant forall k :: 0 < k <= i ==> b[k - 1] == Scale(g, Mul(Pow2(eCount), Spread(k, wc)), point)
    {
      CombEntry(g, a[..], ptCnt + 1, wc, 1, point, i + 1);
      MulOne(Spread(i + 1, wc));
      b[i] := DblN(g, a[i], eCount, Spread(i + 1, wc), point);
    }
  }

  /** What the two-table loop has made of the columns from i on in each half. */
  function HalfRows(v: nat, i: nat, e: nat, w: nat, wc: nat): int
    requires i <= e <= wc
  {
    Rows(v, i, wc - i, w, wc) - Mul(Pow2(e - i), Rows(v, e, wc - e, w, wc))
      + Mul(Pow2(e), Upper(v, i + e, w, wc))
  }

  /** The rows from column c on, if there are any. */
  function Upper(v: nat, c: nat, w: nat, wc: nat): nat
  {
    if c < wc then Rows(v, c, wc - c, w, wc) else 0
  }

  lemma HalfRowsStep(v: nat, i: nat, e: nat, w: nat, wc: nat)
    requires i < e <= wc
    ensures HalfRows(v, i, e, w, wc) == 2 * HalfRows(v, i + 1, e, w, wc) + ColumnSum(v, i, w, wc)
      + (if i + e < wc then Mul(Pow2(e), ColumnSum(v, i + e, w, wc)) else 0)
  {
    hide Pow2, Mul, Rows, ColumnSum;
    RowsStep(v, i, wc - i, w, wc);
    Pow2Add(1, e - i - 1);
    Pow2One();
    MulDouble(Pow2(e - i - 1), Rows(v, e, wc - e, w, wc));
    var u := Upper(v, i + 1 + e, w, wc);
    MulTwice(Pow2(e), u);
    if i + e < wc {
      RowsStep(v, i + e, wc - i - e, w, wc);
      if i + e + 1 == wc { RowsNone(v, wc, w, wc); }
      MulSum(Pow2(e), ColumnSum(v, i + e, w, wc), 2 * u);
    }
  }

  lemma HalfRowsStart(v: nat, e: nat, w: nat, wc: nat)
    requires e <= wc <= 2 * e
    ensures HalfRows(v, e, e, w, wc) == 0
  {
    hide Rows;
    MulOne(Rows(v, e, wc - e, w, wc));
    MulZero(Pow2(e));
  }

  lemma HalfRowsWhole(v: nat, e: nat, w: nat, wc: nat)
    requires e <= wc && v < Pow2(w * wc)
    ensures HalfRows(v, 0, e, w, wc) == v
  {
    hide Pow2, Mul, Rows;
    RowsWhole(v, w, wc);
    if e == wc { RowsNone(v, wc, w, wc); }
  }

  /** ec_point_affine_fpx_comb2t_mult. */
  method Comb2Mult<G(!new, ==)>(g: Group<G>, data: CombData<G>, d: Bn, m: nat, ghost p: G) returns (r: G)
    requires Abelian(g) && d.Valid() && data.Ready2(g, p, m)
    ensures r == Scale(g, d.V(), p)
  {
    hide Abelian, Add, Neg, Scale, Pow2, Mul, HalfRows, ColumnSum, BP, Val, CombTable;
    var done: bool;
    done, r := CombSpecial(g, data, d, m, p);
    if done { return; }
    ghost var v, w, wc, e := d.V(), data.wndBits, data.wndCount, data.eCount;
    var bitOff: int := (data.wndBits - 1) * data.wndCount + (data.eCount - 1);
    MulIs(w - 1, wc);
    MulIs(w, wc);
    ScaleSmall(g, p);
    HalfRowsStart(v, e, w, wc);
    var i := data.eCount;
    while i > 0
      invariant 0 <= i <= e && bitOff == i - 1 + Mul(w - 1, wc)
      invariant r == Scale(g, HalfRows(v, i, e, w, wc), p)
    {
      i := i - 1;
      ghost var k := HalfRows(v, i + 1, e, w, wc);
      HalfRowsStep(v, i, e, w, wc);
      ScaleAdd(g, k, k, p);
      r := Add(g, r, r);
      MulOne(ColumnSum(v, i, w, wc));
      r := AddColumn(g, r, data.ptAdd, d, bitOff, data.wndBits, data.wndCount, i, 1, 2 * k, p);
      if i + data.eCount < data.wndCount {
        r := AddColumn(g, r, data.ptDbl, d, bitOff + data.eCount, data.wndBits, data.wndCount,
                       i + e, Pow2(e), 2 * k + ColumnSum(v, i, w, wc), p);
      }
      bitOff := bitOff - 1;
    }
    HalfRowsWhole(v, e, w, wc);
  }
}
