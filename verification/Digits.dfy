/** Little-endian digit sequences, and the in-place digit loops of include/math/big_num.h. */
module Digits {
  import opened Common
  import opened Numbers

  /** The default configuration: 64-bit digits. */
  const W: nat := 64
  const B: nat := 0x1_0000_0000_0000_0000

  type Digit = d: nat | d < B witness 0

  const MAX_DIGIT: Digit := B - 1

  /** The number a little-endian digit sequence stands for. */
  function Val(s: seq<Digit>): nat
  {
    if s == [] then 0 else s[0] + B * Val(s[1..])
  }

  /** B to the power n. */
  function BP(n: nat): (r: nat)
    ensures r > 0
  {
    if n == 0 then 1 else B * BP(n - 1)
  }

  lemma BPStep(n: nat)
    ensures BP(n + 1) == B * BP(n) && BP(0) == 1
  {}

  lemma ValOne(s: seq<Digit>)
    requires s != []
    ensures Val(s[..1]) == s[0]
  {
    assert s[..1] == [s[0]];
  }

  lemma ValSingle(d: Digit)
    ensures Val([d]) == d
  {}

  lemma {:induction false} BPAdd(a: nat, b: nat)
    ensures BP(a + b) == BP(a) * BP(b)
  {
    if a != 0 {
      BPAdd(a - 1, b);
      MulAssociative(B, BP(a - 1), BP(b));
    }
  }

  lemma {:induction false} BPMonotonic(a: nat, b: nat)
    requires a <= b
    ensures BP(a) <= BP(b)
  {
    if a < b { BPMonotonic(a, b - 1); }
  }

  lemma Pow2Of8()
    ensures Pow2(8) == 256
  {}

  lemma BaseIsPow2()
    ensures Pow2(W) == B
  {
    hide Pow2;
    Pow2Of8();
    Pow2Add(8, 8);
    Pow2Add(16, 16);
    Pow2Add(32, 32);
  }

  lemma {:induction false} BPIsPow2(n: nat)
    ensures BP(n) == Pow2(W * n)
  {
    if n != 0 {
      BPIsPow2(n - 1);
      BaseIsPow2();
      Pow2Add(W, W * (n - 1));
    }
  }

  lemma {:induction false} ValAppend(s: seq<Digit>, t: seq<Digit>)
    ensures Val(s + t) == Val(s) + BP(|s|) * Val(t)
  {
    if s == [] {
      assert s + t == t;
    } else {
      ValAppend(s[1..], t);
      assert (s + t)[1..] == s[1..] + t;
      MulAssociative(B, BP(|s| - 1), Val(t));
    }
  }

  /** Splitting a number at a digit boundary. */
  lemma ValSplit(s: seq<Digit>, k: nat)
    requires k <= |s|
    ensures Val(s) == Val(s[..k]) + BP(k) * Val(s[k..])
  {
    hide BP, Val;
    ValAppend(s[..k], s[k..]);
    assert s == s[..k] + s[k..];
  }

  /** The two parts of a number, with their bounds; the product is a Mul term. */
  lemma LowHigh(s: seq<Digit>, k: nat) returns (low: int, high: int)
    requires k <= |s|
    ensures low == Val(s[..k]) && high == Val(s[k..]) && Val(s) == low + Mul(BP(k), high)
    ensures 0 <= low < BP(k) && 0 <= high < BP(|s| - k)
  {
    low, high := Val(s[..k]), Val(s[k..]);
    ValSplit(s, k);
    ValBound(s[..k]);
    ValBound(s[k..]);
  }

  lemma BPMul(a: nat, b: nat)
    ensures BP(a + b) == Mul(BP(a), BP(b))
  {
    BPAdd(a, b);
  }

  /** Extending a prefix by its next digit. */
  lemma ValPrefixStep(s: seq<Digit>, k: nat)
    requires k < |s|
    ensures Val(s[..k + 1]) == Val(s[..k]) + BP(k) * s[k]
  {
    ValAppend(s[..k], [s[k]]);
    assert s[..k + 1] == s[..k] + [s[k]];
    assert Val([s[k]]) == s[k];
  }

  lemma {:induction false} ValBound(s: seq<Digit>)
    ensures Val(s) < BP(|s|)
  {
    if s != [] { ValBound(s[1..]); }
  }

  predicate AllZero(s: seq<Digit>) { forall i :: 0 <= i < |s| ==> s[i] == 0 }

  lemma {:induction false} ValZero(s: seq<Digit>)
    ensures Val(s) == 0 <==> AllZero(s)
  {
    if s != [] {
      ValZero(s[1..]);
      assert AllZero(s) ==> AllZero(s[1..]);
      if Val(s) == 0 {
        forall i | 0 <= i < |s| ensures s[i] == 0 {
          if i > 0 { assert s[i] == s[1..][i - 1]; }
        }
      }
    }
  }

  lemma TailStep(s: seq<Digit>, i: nat)
    requires i < |s|
    ensures Val(s[i..]) == s[i] + B * Val(s[i + 1..])
  {
    assert s[i..][1..] == s[i + 1..];
  }

  /** Zero digits on top do not change the value. */
  lemma ValTrim(s: seq<Digit>, k: nat)
    requires k <= |s| && AllZero(s[k..])
    ensures Val(s) == Val(s[..k])
  {
    ValSplit(s, k);
    ValZero(s[k..]);
  }

  lemma ValTop(s: seq<Digit>)
    requires s != []
    ensures BP(|s| - 1) * s[|s| - 1] <= Val(s) < BP(|s| - 1) * (s[|s| - 1] as int + 1)
  {
    var k := |s| - 1;
    ValPrefixStep(s, k);
    assert s[..k + 1] == s;
    ValBound(s[..k]);
    Distribute(BP(k), s[k], 1);
  }

  /** A number is below the power of B at index k exactly when its digits from k on are zero. */
  lemma ValSmall(s: seq<Digit>, k: nat)
    requires k <= |s|
    ensures Val(s) < BP(k) <==> AllZero(s[k..])
  {
    ValSplit(s, k);
    ValZero(s[k..]);
    ValBound(s[..k]);
    if Val(s[k..]) > 0 { MulMono(BP(k), 1, Val(s[k..])); }
  }

  /** One digit of a carry chain: p is the weight of the digit. */
  lemma CarryStep(p: nat, low: int, high: int, x: int)
    requires low + B * high == x
    ensures p * low + (B * p) * high == p * x
  {
    Distribute(p, low, B * high);
    assert p * (B * high) == (B * p) * high;
  }

  // ----- arrays -----

  /** Nothing outside [lo, hi) differs between the two contents. */
  predicate SameOutside(s: seq<Digit>, t: seq<Digit>, lo: nat, hi: nat)
  {
    && |s| == |t|
    && forall i :: 0 <= i < |s| && (i < lo || hi <= i) ==> s[i] == t[i]
  }

  /** bn_digits_calc_digits: the significant length. */
  method CalcDigits(a: array<Digit>, count: nat) returns (n: nat)
    requires count <= a.Length
    ensures n <= count
    ensures n > 0 ==> a[n - 1] != 0
    ensures forall i :: n <= i < count ==> a[i] == 0
    ensures Val(a[..n]) == Val(a[..count])
  {
    n := count;
    while n > 0 && a[n - 1] == 0
      invariant n <= count
      invariant forall i :: n <= i < count ==> a[i] == 0
    {
      n := n - 1;
    }
    ValTrim(a[..count], n);
    assert a[..count][n..] == a[n..count];
    assert a[..count][..n] == a[..n];
  }

  function Sign(x: int): (r: int) { if x > 0 then 1 else if x < 0 then -1 else 0 }

  /** bn_digits_cmp on a[aOff..] and b: the sign of the difference. */
  method DigitsCmp(a: array<Digit>, aOff: nat, b: array<Digit>, count: nat) returns (r: int)
    requires aOff + count <= a.Length && count <= b.Length
    ensures r == Sign(Val(a[aOff..aOff + count]) - Val(b[..count]))
  {
    ghost var s, t := a[aOff..aOff + count], b[..count];
    var i := count;
    while i > 0
      invariant 0 <= i <= count
      invariant s[i..] == t[i..]
    {
      i := i - 1;
      if a[aOff + i] != b[i] {
        assert s[i] == a[aOff + i] && t[i] == b[i];
        CmpAt(s, t, i);
        return if a[aOff + i] > b[i] then 1 else -1;
      }
      assert s[i..] == [s[i]] + s[i + 1..] && t[i..] == [t[i]] + t[i + 1..];
    }
    assert s[0..] == s && t[0..] == t;
    return 0;
  }

  lemma PlaceOrder(p: nat, x: int, y: int, u: int, v: int)
    requires 0 <= u < p && 0 <= v < p && x < y
    ensures u + p * x < v + p * y
  {
    MulMono(p, x + 1, y);
    Distribute(p, x, 1);
  }

  /** The highest differing digit decides a comparison. */
  lemma CmpAt(s: seq<Digit>, t: seq<Digit>, i: nat)
    requires |s| == |t| && i < |s| && s[i + 1..] == t[i + 1..] && s[i] != t[i]
    ensures Sign(Val(s) - Val(t)) == Sign(s[i] as int - t[i] as int)
  {
    hide BP, Val;
    ValSplit(s, i + 1);
    ValSplit(t, i + 1);
    ValPrefixStep(s, i);
    ValPrefixStep(t, i);
    ValBound(s[..i]);
    ValBound(t[..i]);
    if s[i] < t[i] {
      PlaceOrder(BP(i), s[i], t[i], Val(s[..i]), Val(t[..i]));
    } else {
      PlaceOrder(BP(i), t[i], s[i], Val(t[..i]), Val(s[..i]));
    }
  }

  // ----- carry chains -----
  // A loop over the low digits of s produces r; after i digits it has added x and still
  // owes c units of digit i. Borrows are negative c.

  predicate Carried(r: seq<Digit>, s: seq<Digit>, i: nat, x: int, c: int)
  {
    |r| == |s| && i <= |s| && r[i..] == s[i..] && Val(r[..i]) + BP(i) * c == Val(s[..i]) + x
  }

  lemma CarryStart(s: seq<Digit>, c: int)
    ensures Carried(s, s, 0, c, c)
  {}

  lemma CarryNext(r: seq<Digit>, s: seq<Digit>, i: nat, x: int, c: int, e: int, y: Digit, c': int)
    requires Carried(r, s, i, x, c) && i < |s| && r[i] + e + c == y + B * c'
    ensures Carried(r[i := y], s, i + 1, x + BP(i) * e, c') && r[i] == s[i]
  {
    hide BP, Val;
    var r' := r[i := y];
    ValPrefixStep(r', i);
    ValPrefixStep(s, i);
    BPStep(i);
    assert r'[..i] == r[..i];
    assert r[i] == r[i..][0] == s[i..][0] == s[i];
    assert r'[i + 1..] == r[i..][1..] == s[i + 1..];
    CarryStep(BP(i), y, c', s[i] + e + c);
    Distribute(BP(i), s[i], e + c);
    Distribute(BP(i), e, c);
  }

  /** The next digit of k times t. */
  lemma MultipleStep(t: seq<Digit>, i: nat, k: int)
    requires i < |t|
    ensures k * Val(t[..i]) + BP(i) * (k * t[i]) == k * Val(t[..i + 1])
  {
    hide BP, Val;
    ValPrefixStep(t, i);
    Distribute(k, Val(t[..i]), BP(i) * t[i]);
    assert k * (BP(i) * t[i]) == BP(i) * (k * t[i]);
  }

  lemma CarryDone(r: seq<Digit>, s: seq<Digit>, i: nat, x: int)
    requires Carried(r, s, i, x, 0)
    ensures Val(r) == Val(s) + x
  {
    hide BP, Val;
    ValSplit(r, i);
    ValSplit(s, i);
  }

  lemma CarryAll(r: seq<Digit>, s: seq<Digit>, x: int, c: int)
    requires Carried(r, s, |s|, x, c)
    ensures Val(r) + BP(|s|) * c == Val(s) + x
  {
    assert r[..|s|] == r && s[..|s|] == s;
  }

  lemma TailAlgebra(p: int, q: int, v: int, v': int, c: int, out: int)
    requires v' + q * out == v + c
    ensures p * v' + (p * q) * out == p * v + p * c
  {
    MulAssociative(p, q, out);
    Distribute(p, v', q * out);
    Distribute(p, v, c);
  }

  /** The carry of the low digits is taken up by the digits above them. */
  lemma CarryTail(r: seq<Digit>, r': seq<Digit>, s: seq<Digit>, i: nat, x: int, c: int, out: int)
    requires Carried(r, s, i, x, c) && |r'| == |r| && r'[..i] == r[..i]
    requires Val(r'[i..]) + BP(|s| - i) * out == Val(r[i..]) + c
    ensures Val(r') + BP(|s|) * out == Val(s) + x
  {
    hide BP, Val;
    ValSplit(r', i);
    ValSplit(r, i);
    ValSplit(s, i);
    BPAdd(i, |s| - i);
    TailAlgebra(BP(i), BP(|s| - i), Val(r[i..]), Val(r'[i..]), c, out);
  }

  /** bn_digits_add_digit: a[off..off+count) += b, with the carry out of the range. */
  method AddDigit(a: array<Digit>, off: nat, count: nat, b: Digit) returns (carry: Digit)
    requires off + count <= a.Length
    modifies a
    ensures carry <= 1
    ensures count > 0 ==> Val(a[off..off + count]) + BP(count) * carry == old(Val(a[off..off + count])) + b
    ensures count == 0 ==> carry == 0
    ensures SameOutside(a[..], old(a[..]), off, off + count)
  {
    hide BP, Val, Carried;
    carry := 0;
    if count == 0 || b == 0 { return; }
    ghost var s := a[off..off + count];
    CarryStart(s, b);
    CarryNext(s, s, 0, b, b, 0, (s[0] + b) % B, (s[0] + b) / B);
    ghost var r := s[0 := (s[0] + b) % B];
    a[off] := (a[off] + b) % B;
    assert a[off..off + count] == r;
    if a[off] >= b { CarryDone(r, s, 1, b); return; }
    var i := 1;
    while i < count
      invariant 1 <= i <= count == |s|
      invariant SameOutside(a[..], old(a[..]), off, off + count)
      invariant a[off..off + count] == r && Carried(r, s, i, b, 1)
    {
      CarryNext(r, s, i, b, 1, 0, (r[i] + 1) % B, (r[i] + 1) / B);
      a[off + i] := (a[off + i] + 1) % B;
      r := r[i := (r[i] + 1) % B];
      assert a[off..off + count] == r;
      i := i + 1;
      if 1 <= a[off + i - 1] { CarryDone(r, s, i, b); return; }
    }
    CarryAll(r, s, b, 1);
    carry := 1;
  }

  /** bn_digits_sub_digit: a[off..off+count) -= b, with the borrow out of the range. */
  method SubDigit(a: array<Digit>, off: nat, count: nat, b: Digit) returns (borrow: Digit)
    requires off + count <= a.Length
    modifies a
    ensures borrow <= 1
    ensures count > 0 ==> Val(a[off..off + count]) - BP(count) * borrow == old(Val(a[off..off + count])) - b
    ensures count == 0 ==> borrow == 0
    ensures SameOutside(a[..], old(a[..]), off, off + count)
  {
    hide BP, Val, Carried;
    borrow := 0;
    if count == 0 || b == 0 { return; }
    ghost var s := a[off..off + count];
    ghost var c := if s[0] < b then -1 else 0;
    CarryStart(s, -(b as int));
    CarryNext(s, s, 0, -(b as int), -(b as int), 0, (s[0] - b) % B, c);
    ghost var r := s[0 := (s[0] - b) % B];
    a[off] := (a[off] - b) % B;
    assert a[off..off + count] == r;
    if a[off] > MAX_DIGIT - b { borrow := 1; }
    var i := 1;
    while borrow != 0 && i < count
      invariant 1 <= i <= count == |s| && borrow <= 1
      invariant SameOutside(a[..], old(a[..]), off, off + count)
      invariant a[off..off + count] == r && Carried(r, s, i, -(b as int), -(borrow as int))
    {
      c := if r[i] < 1 then -1 else 0;
      CarryNext(r, s, i, -(b as int), -1, 0, (r[i] - 1) % B, c);
      a[off + i] := (a[off + i] - borrow) % B;
      r := r[i := (r[i] - 1) % B];
      assert a[off..off + count] == r;
      borrow := if a[off + i] > MAX_DIGIT - borrow then 1 else 0;
      i := i + 1;
    }
    if borrow == 0 { CarryDone(r, s, i, -(b as int)); } else { CarryAll(r, s, -(b as int), -1); }
  }

  /** The end of the adding loops: a carry left after bCount digits goes on into a[bCount..aCount). */
  method AddTail(a: array<Digit>, off: nat, aCount: nat, bCount: nat, crr: Digit,
                 ghost r: seq<Digit>, ghost s: seq<Digit>, ghost x: int)
    returns (carry: Digit)
    requires off + aCount <= a.Length && bCount <= aCount == |r|
    requires forall k :: 0 <= k < aCount ==> a[off + k] == r[k]
    requires Carried(r, s, bCount, x, crr)
    modifies a
    ensures Val(a[off..off + aCount]) + BP(aCount) * carry == Val(s) + x
    ensures carry <= if crr <= 1 then 1 else crr
    ensures SameOutside(a[..], old(a[..]), off, off + aCount)
  {
    hide BP, Val;
    assert a[off..off + aCount] == r;
    assert a[off + bCount..off + aCount] == r[bCount..];
    if crr != 0 && aCount > bCount {
      carry := AddDigit(a, off + bCount, aCount - bCount, crr);
      ghost var r' := a[off..off + aCount];
      assert r'[bCount..] == a[off + bCount..off + aCount];
      assert r'[..bCount] == r[..bCount];
      CarryTail(r, r', s, bCount, x, crr, carry);
    } else {
      carry := crr;
      if crr == 0 { CarryDone(r, s, bCount, x); } else { CarryAll(r, s, x, crr); }
    }
  }

  /** One digit of bn_digits_add: the new digit and the new carry. */
  function AddStep(x: Digit, tm: Digit, crr: Digit): (r: (Digit, Digit))
    requires crr <= 1
    ensures r.1 <= 1 && x + tm + crr == r.0 + B * r.1
  {
    var y := (x + crr) % B;
    var c := if y < crr then 1 else 0;
    if tm == 0 then (y, c)
    else
      var z := (y + tm) % B;
      (z, if z < tm then 1 else c)
  }

  /** bn_digits_add: a[off..off+aCount) += b[..bCount), also for a number added to itself. */
  method DigitsAdd(a: array<Digit>, off: nat, aCount: nat, b: array<Digit>, bCount: nat)
    returns (status: Status, carry: Digit)
    requires off + aCount <= a.Length && bCount <= b.Length && (a != b || off == 0)
    modifies a
    ensures status == if bCount > aCount then EOVERFLOW else Ok
    ensures carry <= 1 && (bCount > aCount ==> carry == 0 && a[..] == old(a[..]))
    ensures bCount <= aCount ==>
      Val(a[off..off + aCount]) + BP(aCount) * carry == old(Val(a[off..off + aCount]) + Val(b[..bCount]))
    ensures SameOutside(a[..], old(a[..]), off, off + aCount)
  {
    hide BP, Val, Carried, AddStep;
    status, carry := Ok, 0;
    ghost var t := b[..bCount];
    if bCount == 0 { ValZero(t); return; }
    if aCount < bCount { status := EOVERFLOW; return; }
    ghost var s := a[off..off + aCount];
    ghost var r := s;
    CarryStart(s, 0);
    var i, crr := 0, 0;
    ValZero(t[..0]);
    while i < bCount
      invariant 0 <= i <= bCount && crr <= 1
      invariant SameOutside(a[..], old(a[..]), off, off + aCount)
      invariant |r| == aCount && forall k :: 0 <= k < aCount ==> a[off + k] == r[k]
      invariant Carried(r, s, i, Val(t[..i]), crr)
      invariant forall k :: i <= k < bCount ==> b[k] == t[k]
    {
      var step := AddStep(a[off + i], b[i], crr);
      CarryNext(r, s, i, Val(t[..i]), crr, t[i], step.0, step.1);
      ValPrefixStep(t, i);
      a[off + i], crr := step.0, step.1;
      r := r[i := step.0];
      i := i + 1;
    }
    assert t[..bCount] == t;
    carry := AddTail(a, off, aCount, bCount, crr, r, s, Val(t));
  }

  /** One digit of bn_digits_sub__int: the new digit and the new borrow. */
  function SubStep(x: Digit, tm: Digit, brrw: Digit): (r: (Digit, Digit))
    requires brrw <= 1
    ensures r.1 <= 1 && x - tm - brrw == r.0 - B * r.1
  {
    var y := (x as int - brrw) % B;
    var c := if y > MAX_DIGIT - brrw then 1 else 0;
    if tm == 0 then (y, c)
    else
      var z := (y - tm) % B;
      (z, if z > MAX_DIGIT - tm then 1 else c)
  }

  /** The end of the subtracting loops: a borrow left after bCount digits goes on into a[bCount..aCount). */
  method SubTail(a: array<Digit>, off: nat, aCount: nat, bCount: nat, brrw: Digit,
                 ghost r: seq<Digit>, ghost s: seq<Digit>, ghost x: int)
    returns (borrow: Digit)
    requires off + aCount <= a.Length && bCount <= aCount == |r|
    requires forall k :: 0 <= k < aCount ==> a[off + k] == r[k]
    requires Carried(r, s, bCount, x, -(brrw as int))
    modifies a
    ensures Val(a[off..off + aCount]) - BP(aCount) * borrow == Val(s) + x
    ensures borrow <= if brrw <= 1 then 1 else brrw
    ensures SameOutside(a[..], old(a[..]), off, off + aCount)
  {
    hide BP, Val;
    assert a[off..off + aCount] == r;
    assert a[off + bCount..off + aCount] == r[bCount..];
    if brrw != 0 && aCount > bCount {
      borrow := SubDigit(a, off + bCount, aCount - bCount, brrw);
      ghost var r' := a[off..off + aCount];
      assert r'[bCount..] == a[off + bCount..off + aCount];
      assert r'[..bCount] == r[..bCount];
      CarryTail(r, r', s, bCount, x, -(brrw as int), -(borrow as int));
    } else {
      borrow := brrw;
      if brrw == 0 { CarryDone(r, s, bCount, x); } else { CarryAll(r, s, x, -(brrw as int)); }
    }
  }

  /** bn_digits_sub__int: a[off..off+aCount) -= b[..bCount). */
  method DigitsSub(a: array<Digit>, off: nat, aCount: nat, b: array<Digit>, bCount: nat)
    returns (borrow: Digit)
    requires off + aCount <= a.Length && bCount <= b.Length && bCount <= aCount && (a != b || off == 0)
    modifies a
    ensures Val(a[off..off + aCount]) - BP(aCount) * borrow == old(Val(a[off..off + aCount]) - Val(b[..bCount]))
    ensures borrow <= 1
    ensures SameOutside(a[..], old(a[..]), off, off + aCount)
  {
    hide BP, Val, Carried, SubStep;
    borrow := 0;
    ghost var t := b[..bCount];
    if bCount == 0 { ValZero(t); return; }
    ghost var s := a[off..off + aCount];
    if a == b {
      forall k | 0 <= k < bCount { a[k] := 0; }
      ghost var r := a[..aCount];
      ValSplit(r, bCount);
      ValSplit(s, bCount);
      ValZero(r[..bCount]);
      assert r[bCount..] == s[bCount..] && s[..bCount] == t;
      return;
    }
    ghost var r := s;
    CarryStart(s, 0);
    var i, brrw := 0, 0;
    ValZero(t[..0]);
    while i < bCount
      invariant 0 <= i <= bCount && brrw <= 1
      invariant SameOutside(a[..], old(a[..]), off, off + aCount)
      invariant |r| == aCount && forall k :: 0 <= k < aCount ==> a[off + k] == r[k]
      invariant Carried(r, s, i, -(Val(t[..i]) as int), -(brrw as int))
      invariant b[..bCount] == t
    {
      var step := SubStep(a[off + i], b[i], brrw);
      MultipleStep(t, i, -1);
      CarryNext(r, s, i, -(Val(t[..i]) as int), -(brrw as int), -(t[i] as int), step.0, -(step.1 as int));
      a[off + i], brrw := step.0, step.1;
      r := r[i := step.0];
      i := i + 1;
    }
    assert t[..bCount] == t;
    borrow := SubTail(a, off, aCount, bCount, brrw, r, s, -(Val(t) as int));
  }

  lemma ProductBound(d: Digit, b: Digit)
    ensures 0 <= d * b <= (B - 1) * (B - 1)
  {
    MulMono(d, b, B - 1);
    MulMono(B - 1, d, B - 1);
  }

  /** One digit of bn_digits_add_digit_mult__int, m being the double-width product. The carry
      always fits one digit. */
  function AddMultStep(x: Digit, m: nat, crr: Digit): (r: (Digit, Digit))
    requires m <= (B - 1) * (B - 1)
    ensures x + m + crr == r.0 + B * r.1
  {
    var t_lo, t_hi := m % B, m / B;
    var y := (x + crr) % B;
    var c := (if y < crr then 1 else 0) + t_hi;
    var z := (y + t_lo) % B;
    (z, if z < t_lo then c + 1 else c)
  }

  /** bn_digits_add_digit_mult__int: a[off..off+aCount) += b[..bCount) * d; a and b may be the same digits.
      The carry out of a is dropped by the source and shown here as a ghost result. */
  method AddDigitMult(a: array<Digit>, off: nat, aCount: nat, b: array<Digit>, bCount: nat, d: Digit)
    returns (ghost lost: Digit)
    requires off + aCount <= a.Length && bCount <= b.Length && bCount <= aCount && (a != b || off == 0)
    modifies a
    ensures Val(a[off..off + aCount]) + BP(aCount) * lost == old(Val(a[off..off + aCount]) + d * Val(b[..bCount]))
    ensures SameOutside(a[..], old(a[..]), off, off + aCount)
  {
    hide BP, Val, Carried, AddMultStep;
    if d == 1 {
      var status, carry := DigitsAdd(a, off, aCount, b, bCount);
      lost := carry;
      return;
    }
    ghost var t := b[..bCount];
    ghost var s := a[off..off + aCount];
    ghost var r := s;
    CarryStart(s, 0);
    var i, crr := 0, 0;
    ValZero(t[..0]);
    while i < bCount
      invariant 0 <= i <= bCount
      invariant SameOutside(a[..], old(a[..]), off, off + aCount)
      invariant |r| == aCount && forall k :: 0 <= k < aCount ==> a[off + k] == r[k]
      invariant Carried(r, s, i, d * Val(t[..i]), crr)
      invariant forall k :: i <= k < bCount ==> b[k] == t[k]
    {
      ProductBound(d, b[i]);
      var step := AddMultStep(a[off + i], d * b[i], crr);
      MultipleStep(t, i, d);
      CarryNext(r, s, i, d * Val(t[..i]), crr, d * t[i], step.0, step.1);
      a[off + i], crr := step.0, step.1;
      r := r[i := step.0];
      i := i + 1;
    }
    assert t[..bCount] == t;
    lost := AddTail(a, off, aCount, bCount, crr, r, s, d * Val(t));
  }

  /** One digit of bn_digits_sub_digit_mult__int. */
  function SubMultStep(x: Digit, m: nat, brrw: Digit): (r: (Digit, Digit))
    requires m <= (B - 1) * (B - 1)
    ensures x - m - brrw == r.0 - B * r.1
  {
    var t_lo, t_hi := m % B, m / B;
    var y := (x as int - brrw) % B;
    var c := if y > MAX_DIGIT - brrw then 1 else 0;
    if m == 0 then (y, c)
    else
      var z := (y - t_lo) % B;
      (z, if z > MAX_DIGIT - t_lo then c + t_hi + 1 else c + t_hi)
  }

  /** bn_digits_sub_digit_mult__int: a[off..off+aCount) -= b[..bCount) * d; a and b may be the same digits. */
  method SubDigitMult(a: array<Digit>, off: nat, aCount: nat, b: array<Digit>, bCount: nat, d: Digit)
    returns (borrow: Digit)
    requires off + aCount <= a.Length && bCount <= b.Length && bCount <= aCount && (a != b || off == 0)
    modifies a
    ensures Val(a[off..off + aCount]) - BP(aCount) * borrow == old(Val(a[off..off + aCount]) - d * Val(b[..bCount]))
    ensures SameOutside(a[..], old(a[..]), off, off + aCount)
  {
    hide BP, Val, Carried, SubMultStep;
    if d == 1 {
      borrow := DigitsSub(a, off, aCount, b, bCount);
      return;
    }
    ghost var t := b[..bCount];
    ghost var s := a[off..off + aCount];
    ghost var r := s;
    ghost var k: int := -(d as int);
    CarryStart(s, 0);
    var i, brrw := 0, 0;
    ValZero(t[..0]);
    while i < bCount
      invariant 0 <= i <= bCount
      invariant SameOutside(a[..], old(a[..]), off, off + aCount)
      invariant |r| == aCount && forall k :: 0 <= k < aCount ==> a[off + k] == r[k]
      invariant Carried(r, s, i, k * Val(t[..i]), -(brrw as int))
      invariant forall j :: i <= j < bCount ==> b[j] == t[j]
    {
      ProductBound(d, b[i]);
      var step := SubMultStep(a[off + i], d * b[i], brrw);
      MultipleStep(t, i, k);
      CarryNext(r, s, i, k * Val(t[..i]), -(brrw as int), k * t[i], step.0, -(step.1 as int));
      a[off + i], brrw := step.0, step.1;
      r := r[i := step.0];
      i := i + 1;
    }
    assert t[..bCount] == t;
    borrow := SubTail(a, off, aCount, bCount, brrw, r, s, k * Val(t));
  }
}
