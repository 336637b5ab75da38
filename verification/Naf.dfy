/** bn_calc_naf of include/math/big_num.h: the width-w non-adjacent form. */
module Naf {
  import opened Common
  import opened Numbers
  import opened Digits
  import opened Shifts
  import opened Bits
  import opened BigNum

  /** The number a string of signed binary digits stands for, lowest digit first. */
  function SignedVal(s: seq<int>): int
  {
    if s == [] then 0 else s[0] + 2 * SignedVal(s[1..])
  }

  lemma {:induction false} SignedValAppend(s: seq<int>, d: int)
    ensures SignedVal(s + [d]) == SignedVal(s) + Pow2(|s|) * d
  {
    if s == [] {
      assert s + [d] == [d];
    } else {
      SignedValAppend(s[1..], d);
      assert (s + [d])[1..] == s[1..] + [d];
      MulAssociative(2, Pow2(|s| - 1), d);
    }
  }

  lemma {:induction false} SignedValZeros(s: seq<int>, n: nat)
    requires n <= |s| && forall i :: n <= i < |s| ==> s[i] == 0
    ensures SignedVal(s) == SignedVal(s[..n])
    decreases |s|
  {
    if |s| > n {
      var k := |s| - 1;
      SignedValZeros(s[..k], n);
      SignedValAppend(s[..k], 0);
      assert s == s[..k] + [0] && s[..k][..n] == s[..n];
    } else {
      assert s[..n] == s;
    }
  }

  /** `(int8_t)x`. */
  function Int8(x: int): (r: int)
    ensures -128 <= r < 128
  {
    if x % 256 >= 128 then x % 256 - 256 else x % 256
  }

  /** The window digit as the source computes it on 8-bit integers, from the masked bits r and the
      sign bit h, of which the low eight bits are kept. */
  function WindowDigitOf(r: nat, h: nat): int
  {
    var itm, sign := Int8(r), h % 256;
    if sign > 0 && itm % 256 / sign % 2 != 0 then Int8(itm - sign * 2) else itm
  }

  lemma WindowDigitOfIs(r: nat, h: nat)
    requires 2 <= h <= 128 && r < 2 * h
    ensures WindowDigitOf(r, h) == if r >= h then r - 2 * h else r
  {
    hide Int8;
    var itm := if r < 128 then r else r - 256;
    Int8Is(r, itm);
    assert itm % 256 == r;
    if r >= h {
      DivModUnique(r, h, 1, r - h);
      Int8Is(itm - 2 * h, r - 2 * h);
    } else {
      DivModUnique(r, h, 0, r);
    }
  }

  lemma Int8Is(x: int, y: int)
    requires -128 <= y < 128 && (x == y || x == y + 256 || x == y - 256)
    ensures Int8(x) == y
  {}

  function WindowDigit(low: Digit, w: nat): int
    requires w > 0
  {
    WindowDigitOf(low % Pow2(w), Pow2(w - 1))
  }

  lemma SmallPow2(w: nat)
    requires 2 <= w <= 8
    ensures Pow2(w) == 2 * Pow2(w - 1) && 2 <= Pow2(w - 1) <= 128 && Pow2(w - 1) % 2 == 0
  {
    assert Pow2(1) == 2 && Pow2(7) == 128;
    Pow2Monotonic(1, w - 1);
    Pow2Monotonic(w - 1, 7);
  }

  /** The width of the form: 8-bit digits make no use of wider windows. */
  function Width(wnd: nat): nat { Min(wnd, 8) }

  lemma WidthRange(wnd: nat)
    requires wnd >= 2
    ensures 2 <= Width(wnd) <= 8
  {}

  /** It is the residue modulo 2^w that lies within half of it, where w is the width. */
  lemma WindowDigitIs(low: Digit, wnd: nat)
    requires wnd >= 2
    ensures WindowDigit(low, wnd) == Residue(low, Width(wnd))
  {
    hide Pow2;
    if wnd <= 8 {
      SmallPow2(wnd);
      WindowDigitOfIs(low % Pow2(wnd), Pow2(wnd - 1));
    } else {
      WideWindow(low, wnd);
    }
  }

  /** A window of more than eight bits has no sign bit, and its digit is cut to the low eight bits. */
  lemma WideWindow(low: Digit, wnd: nat)
    requires wnd > 8
    ensures WindowDigit(low, wnd) == Residue(low, 8)
  {
    hide Pow2;
    SmallPow2(8);
    Pow2Of8();
    Pow2Add(8, wnd - 9);
    Pow2Add(8, wnd - 8);
    var r, q := low % Pow2(wnd), low / Pow2(wnd);
    ModAddMultiple(0, Pow2(wnd - 9), 256);
    MulQuotient(low, Pow2(wnd));
    assert low == r + (Pow2(wnd - 8) * q) * 256 by { MulAssociative(256, Pow2(wnd - 8), q); }
    ModAddMultiple(r, Pow2(wnd - 8) * q, 256);
    assert Pow2(7) == 128 by { assert Pow2(8) == 2 * Pow2(7); }
  }

  /** The residue of t modulo 2^w of least absolute value. */
  function Residue(t: nat, w: nat): int
    requires w > 0
  {
    var r := t % Pow2(w);
    if r >= Pow2(w - 1) then r - Pow2(w) else r
  }

  /** One digit at most is nonzero in any w neighbours. */
  ghost predicate NonAdjacent(s: seq<int>, w: nat)
  {
    forall p, q :: 0 <= p < q < |s| && q < p + w ==> s[p] == 0 || s[q] == 0
  }

  ghost predicate NafDigit(d: int, w: nat)
    requires w > 0
  {
    d == 0 || (d % 2 == 1 && -(Pow2(w - 1) as int) < d < Pow2(w - 1))
  }

  ghost predicate NafDigits(s: seq<int>, w: nat)
    requires w > 0
  {
    forall i :: 0 <= i < |s| ==> NafDigit(s[i], w)
  }

  /** Rounding up to the next multiple of 2^w leaves the storage of `cap`. */
  predicate Wraps(v: nat, cap: nat, w: nat)
    requires w > 0
  {
    v % 2 == 1 && v + Pow2(w - 1) >= cap
  }

  // ----- one digit, on numbers -----

  /** The window digit takes t to a multiple of 2^w. */
  lemma DigitMultiple(t: nat, w: nat, d: int) returns (k: nat)
    requires 2 <= w <= 8 && t % 2 == 1 && d == Residue(t, w)
    ensures t - d == Mul(Pow2(w), k) == 2 * Mul(Pow2(w - 1), k)
    ensures d % 2 == 1 && -(Pow2(w - 1) as int) < d < Pow2(w - 1)
  {
    hide Pow2, Mul;
    SmallPow2(w);
    var h, q, r := Pow2(w - 1), t / Pow2(w), t % Pow2(w);
    MulQuotient(t, Pow2(w));
    MulNext(Pow2(w), q);
    DivNat(t, Pow2(w));
    k := if r >= h then q + 1 else q;
    MulDouble(h, k);
  }

  /** What is left of t after its window digit, before and after halving. */
  lemma DigitStep(t: nat, w: nat, d: int)
    requires 2 <= w <= 8 && t % 2 == 1 && d == Residue(t, w)
    ensures NafDigit(d, w) && d != 0
    ensures t - d >= 0 && (t - d) % 2 == 0 && (t - d) / 2 % Pow2(w - 1) == 0
  {
    hide Pow2, Mul;
    var k := DigitMultiple(t, w, d);
    MulOrder(Pow2(w), 0, k);
    MulZero(Pow2(w));
    MulDivides((t - d) / 2, Pow2(w - 1), k);
  }

  /** The bound on what is left falls by one bit a digit. */
  lemma DigitBound(t: nat, w: nat, d: int, n: nat)
    requires 2 <= w <= 8 && t % 2 == 1 && t <= Pow2(n)
    requires d == Residue(t, w)
    ensures n > 0 ==> t - d <= Pow2(n) && (t - d) / 2 <= Pow2(n - 1)
    ensures n == 0 ==> t - d == 0
  {
    hide Pow2, Mul;
    SmallPow2(w);
    if n > 0 { Pow2Add(1, n - 1); Pow2One(); }
    if n >= w {
      var k := DigitMultiple(t, w, d);
      Pow2Mul(w, n - w);
      MulOrder(Pow2(w), Pow2(n - w), k);
      MulOrder(Pow2(w), k, Pow2(n - w));
    } else {
      Pow2Monotonic(n, w - 1);
      Pow2Zero();
      SmallMod(t, Pow2(w));
    }
  }

  /** The first digit rounds past the storage exactly for the numbers that Wraps describes. */
  lemma WrapIff(v: nat, cap: nat, w: nat, d: int)
    requires 2 <= w <= 8 && v < cap && v % 2 == 1 && d == Residue(v, w) && cap % Pow2(w) == 0
    ensures v - d >= cap <==> Wraps(v, cap, w)
    ensures v - d >= cap ==> v - d == cap
  {
    hide Pow2, Mul;
    SmallPow2(w);
    var p, c := Pow2(w), cap / Pow2(w);
    var k := DigitMultiple(v, w, d);
    MulQuotient(cap, p);
    MulOrder(p, c, k);
    MulOrder(p, k, c);
  }

  // ----- the state of the loop -----

  function Lost(v: nat, cap: nat, w: nat, i: nat): nat
    requires w > 0
  {
    if i > 0 && Wraps(v, cap, w) then cap else 0
  }

  /** After the digits s, t is left; t has z trailing zeros to come, the last w - 1 - z digits are zero. */
  ghost predicate State(v: nat, cap: nat, n: nat, w: nat, s: seq<int>, t: nat, z: nat)
    requires w > 0
  {
    && SignedVal(s) + Pow2(|s|) * t == v - Lost(v, cap, w, |s|)
    && NafDigits(s, w) && NonAdjacent(s, w)
    && z < w && t % Pow2(z) == 0
    && (forall k :: 0 <= k < |s| && |s| - (w - 1 - z) <= k ==> s[k] == 0)
    && |s| <= n + 1 && (if |s| <= n then t <= Pow2(n - |s|) else t == 0)
  }

  lemma StateStart(v: nat, cap: nat, n: nat, w: nat)
    requires w > 0 && v <= Pow2(n)
    ensures State(v, cap, n, w, [], v, 0)
  {}

  lemma EvenStep(v: nat, cap: nat, n: nat, w: nat, s: seq<int>, t: nat, z: nat)
    requires 2 <= w <= 8 && State(v, cap, n, w, s, t, z) && t > 0 && t % 2 == 0
    ensures State(v, cap, n, w, s + [0], t / 2, if z > 0 then z - 1 else 0)
  {
    hide Pow2, SignedVal;
    SignedValAppend(s, 0);
    HalfWeight(|s|, t);
    if |s| == n { Pow2Zero(); }
    if |s| < n { Pow2Add(1, n - |s| - 1); Pow2One(); }
    if z > 0 {
      Pow2Add(1, z - 1);
      Pow2One();
      ExactQuotient(t, Pow2(z));
      var k := t / Pow2(z);
      assert t == 2 * (Pow2(z - 1) * k) by { MulAssociative(2, Pow2(z - 1), k); }
      ExactMultiple(t / 2, Pow2(z - 1), k);
    } else {
      Pow2Zero();
    }
    AppendZero(s, w);
    FirstDigitEven(v, cap, w, s, t);
  }

  lemma HalfWeight(i: nat, t: int)
    requires t % 2 == 0
    ensures Pow2(i + 1) * (t / 2) == Pow2(i) * t
  {
    MulAssociative(2, Pow2(i), t / 2);
    assert Pow2(i) * t == Pow2(i) * (2 * (t / 2));
  }

  lemma AppendZero(s: seq<int>, w: nat)
    requires w > 0 && NafDigits(s, w) && NonAdjacent(s, w)
    ensures NafDigits(s + [0], w) && NonAdjacent(s + [0], w)
  {}

  lemma FirstDigitEven(v: nat, cap: nat, w: nat, s: seq<int>, t: nat)
    requires w > 0 && SignedVal(s) + Pow2(|s|) * t == v - Lost(v, cap, w, |s|) && t % 2 == 0
    ensures Lost(v, cap, w, |s| + 1) == Lost(v, cap, w, |s|)
  {
    if s == [] { assert v == t; }
  }

  /** What the source keeps of t - d: nothing when the addition leaves the storage. */
  function Left(t: nat, d: int, cap: nat): int { if t - d >= cap then 0 else (t - d) / 2 }

  lemma OddRoom(v: nat, cap: nat, n: nat, w: nat, i: nat, t: nat, d: int)
    requires 2 <= w <= 8 && t % 2 == 1 && d == Residue(t, w) && (i == 0 ==> t == v)
    requires v < cap && Pow2(n) <= cap && cap % Pow2(w) == 0 && i <= n && t <= Pow2(n - i)
    ensures t - d >= cap <==> i == 0 && Wraps(v, cap, w)
    ensures t - d >= cap ==> t - d == cap
    ensures t - d >= 0 && if i < n then Left(t, d, cap) <= Pow2(n - i - 1) else Left(t, d, cap) == 0
  {
    hide Pow2, Wraps, Residue;
    DigitStep(t, w, d);
    DigitBound(t, w, d, n - i);
    if i == 0 {
      WrapIff(v, cap, w, d);
    } else if i < n {
      Pow2Monotonic(n - i + 1, n);
      Pow2Add(1, n - i);
      Pow2One();
    }
  }

  lemma OddSum(v: nat, cap: nat, w: nat, s: seq<int>, t: nat, d: int)
    requires w > 0 && SignedVal(s) + Pow2(|s|) * t == v - Lost(v, cap, w, |s|) && (t - d) % 2 == 0
    requires t - d >= cap <==> |s| == 0 && Wraps(v, cap, w)
    requires t - d >= cap ==> t - d == cap
    ensures SignedVal(s + [d]) + Pow2(|s| + 1) * Left(t, d, cap) == v - Lost(v, cap, w, |s| + 1)
  {
    hide Pow2, SignedVal, Wraps;
    SignedValAppend(s, d);
    HalfWeight(|s|, t - d);
    Distribute(Pow2(|s|), t - d, d);
    if s == [] { SignedValEmpty(); Pow2Zero(); }
  }

  lemma NoDigitsYet(v: nat, cap: nat, w: nat, s: seq<int>, t: nat)
    requires w > 0 && s == [] && SignedVal(s) + Pow2(|s|) * t == v - Lost(v, cap, w, |s|)
    ensures t == v
  {
    SignedValEmpty();
    Pow2Zero();
  }

  lemma OddStep(v: nat, cap: nat, n: nat, w: nat, s: seq<int>, t: nat, z: nat, d: int)
    requires 2 <= w <= 8 && State(v, cap, n, w, s, t, z) && t % 2 == 1 && d == Residue(t, w)
    requires v < cap && Pow2(n) <= cap && cap % Pow2(w) == 0
    ensures t - d >= 0 && (t - d >= cap ==> t - d == cap) && Left(t, d, cap) >= 0
    ensures State(v, cap, n, w, s + [d], Left(t, d, cap), w - 1)
  {
    hide Pow2, SignedVal, Residue, Wraps, NonAdjacent, NafDigits, Lost;
    assert |s| <= n && t > 0;
    if s == [] { NoDigitsYet(v, cap, w, s, t); }
    DigitStep(t, w, d);
    OddRoom(v, cap, n, w, |s|, t, d);
    OddSum(v, cap, w, s, t, d);
    OddHasNoZeros(t, z);
    AppendDigit(s, w, d);
    SmallMod(0, Pow2(w - 1));
  }

  lemma SignedValEmpty()
    ensures SignedVal([]) == 0
  {}

  lemma OddHasNoZeros(t: nat, z: nat)
    requires t % 2 == 1 && t % Pow2(z) == 0
    ensures z == 0
  {
    if z > 0 {
      ExactQuotient(t, Pow2(z));
      MulAssociative(2, Pow2(z - 1), t / Pow2(z));
    }
  }

  lemma AppendDigit(s: seq<int>, w: nat, d: int)
    requires w > 0 && NafDigits(s, w) && NonAdjacent(s, w) && NafDigit(d, w)
    requires forall k :: 0 <= k < |s| && |s| - (w - 1) <= k ==> s[k] == 0
    ensures NafDigits(s + [d], w) && NonAdjacent(s + [d], w)
  {}

  // ----- the algorithm -----

  lemma LowResidue(v: nat, low: Digit, high: nat, w: nat)
    requires 2 <= w <= 8 && v == low + B * high
    ensures Residue(v, w) == Residue(low, w)
  {
    hide Pow2;
    BaseIsPow2();
    Pow2Add(w, W - w);
    MulAssociative(Pow2(w), Pow2(W - w), high);
    ModAddMultiple(low, Pow2(W - w) * high, Pow2(w));
    assert Pow2(w) * (Pow2(W - w) * high) == (Pow2(W - w) * high) * Pow2(w);
  }

  /** One turn of the loop: the digit of the lowest bit, and what is left of tm. */
  method Turn(tm: Bn, wnd: nat, ghost w: nat) returns (itm: int)
    requires tm.Valid() && tm.V() > 0 && wnd >= 2 && w == Width(wnd)
    modifies tm`digits, tm.num
    ensures tm.Valid()
    ensures old(tm.V()) % 2 == 0 ==> itm == 0 && tm.V() == old(tm.V()) / 2
    ensures old(tm.V()) % 2 == 1 ==> itm == Residue(old(tm.V()), w)
    ensures old(tm.V()) % 2 == 1 && old(tm.V()) - itm <= BP(tm.count)
      ==> tm.V() == Left(old(tm.V()), itm, BP(tm.count))
  {
    hide BP, Val, Pow2, Residue;
    tm.Bounds();
    Pow2One();
    LowWindow(tm, wnd);
    if tm.num[0] % 2 != 0 {
      itm := WindowDigit(tm.num[0], wnd);
      ResidueRange(tm.V(), w);
      TakeDigit(tm, itm);
    } else {
      itm := 0;
    }
    tm.Bounds();
    tm.RShift(1);
  }

  /** The lowest digit has the parity and the window digit of the whole number. */
  lemma LowWindow(tm: Bn, wnd: nat)
    requires tm.Shape() && tm.digits > 0 && wnd >= 2
    ensures tm.num[0] % 2 == tm.V() % 2 && WindowDigit(tm.num[0], wnd) == Residue(tm.V(), Width(wnd))
  {
    hide Pow2, Residue, WindowDigit;
    ghost var s := tm.num[..tm.digits];
    assert tm.V() == s[0] + B * Val(s[1..]);
    WindowDigitIs(tm.num[0], wnd);
    LowResidue(tm.V(), tm.num[0], Val(s[1..]), Width(wnd));
  }

  /** tm -= itm for a digit of either sign; a carry out of the storage is lost. */
  method TakeDigit(tm: Bn, itm: int)
    requires tm.Valid() && -128 < itm < 128 && tm.V() - itm >= 0
    modifies tm`digits, tm.num
    ensures tm.Valid()
    ensures tm.V() == old(tm.V()) - itm - (if old(tm.V()) - itm >= BP(tm.count) then BP(tm.count) else 0)
  {
    hide BP, Val;
    tm.Below();
    if itm < 0 {
      var carry := tm.AddDigitTo(-itm);
      tm.Below();
      assert carry == 0 || carry == 1;
    } else {
      var borrow := tm.SubDigitFrom(itm);
      tm.Below();
      assert borrow == 0 || borrow == 1;
    }
  }

  lemma ResidueRange(t: nat, w: nat)
    requires 2 <= w <= 8 && t % 2 == 1
    ensures -128 < Residue(t, w) < 128 && t - Residue(t, w) >= 0
  {
    SmallPow2(w);
    DigitStep(t, w, Residue(t, w));
  }

  /** bn_calc_naf. Windows of more than 31 bits would shift a C integer by its width. */
  method CalcNaf(bn: Bn, wndBits: nat, size: nat, arr: array<int>) returns (status: Status, cnt: nat)
    requires bn.Valid() && wndBits < 32 && size <= arr.Length
    modifies arr
    ensures status == if wndBits < 2 then EINVAL else if size < BitLen(bn.V()) + 1 then EOVERFLOW else Ok
    ensures status.Ok? ==> cnt <= BitLen(bn.V()) + 1
    ensures status.Ok? ==> wndBits >= 2 && NafDigits(arr[..cnt], Width(wndBits)) && NonAdjacent(arr[..cnt], Width(wndBits))
    ensures status.Ok? ==> forall k :: cnt <= k < size ==> arr[k] == 0
    ensures status.Ok? ==> SignedVal(arr[..cnt]) == SignedVal(arr[..size])
    ensures status.Ok? ==>
      SignedVal(arr[..cnt]) == bn.V() - (if Wraps(bn.V(), BP(bn.count), Width(wndBits)) then BP(bn.count) else 0)
  {
    hide BP, Val, Pow2, Residue, SignedVal, NonAdjacent, NafDigits, Wraps, State;
    cnt := 0;
    if 2 > wndBits { return EINVAL, 0; }
    var bits := bn.CalcBits();
    if size < bits + 1 { return EOVERFLOW, 0; }
    var tm := new Bn();
    tm.AssignInit(bn);
    BitsFit(bn, bits);
    cnt := NafLoop(tm, wndBits, arr, bits, Width(wndBits));
    ghost var s := arr[..cnt];
    forall k | cnt <= k < size { arr[k] := 0; }
    assert arr[..cnt] == s && arr[..size][..cnt] == s;
    SignedValZeros(arr[..size], cnt);
    LostMatters(bn.V(), BP(bn.count), Width(wndBits), cnt);
    status := Ok;
  }

  lemma BitsFit(bn: Bn, bits: nat)
    requires bn.Valid() && (bn.V() == 0 ==> bits == 0) && (bn.V() > 0 ==> bits <= W * bn.digits)
    ensures Pow2(bits) <= BP(bn.count)
  {
    bn.Bounds();
    BPIsPow2(bn.count);
    Pow2Monotonic(bits, W * bn.count);
  }

  lemma LostMatters(v: nat, cap: nat, w: nat, i: nat)
    requires w > 0 && (v > 0 ==> i > 0)
    ensures Lost(v, cap, w, i) == if Wraps(v, cap, w) then cap else 0
  {}

  lemma CapMultiple(count: nat, w: nat)
    requires count > 0 && w <= W
    ensures BP(count) % Pow2(w) == 0
  {
    hide Pow2, BP;
    BPStep(count - 1);
    BaseIsPow2();
    Pow2Add(w, W - w);
    MulAssociative(Pow2(w), Pow2(W - w), BP(count - 1));
    ExactMultiple(BP(count), Pow2(w), Pow2(W - w) * BP(count - 1));
  }

  lemma StateRoom(v: nat, cap: nat, n: nat, w: nat, s: seq<int>, t: nat, z: nat)
    requires w > 0 && State(v, cap, n, w, s, t, z) && t > 0
    ensures |s| <= n
  {}

  lemma StateDone(v: nat, cap: nat, n: nat, w: nat, s: seq<int>, z: nat)
    requires w > 0 && State(v, cap, n, w, s, 0, z)
    ensures SignedVal(s) == v - Lost(v, cap, w, |s|) && NafDigits(s, w) && NonAdjacent(s, w)
  {}

  method NafLoop(tm: Bn, wnd: nat, arr: array<int>, ghost n: nat, ghost w: nat) returns (i: nat)
    requires tm.Valid() && wnd >= 2 && w == Width(wnd) && n < arr.Length && tm.V() < Pow2(n) <= BP(tm.count)
    modifies tm`digits, tm.num, arr
    ensures i <= n + 1 && NafDigits(arr[..i], w) && NonAdjacent(arr[..i], w)
    ensures SignedVal(arr[..i]) == old(tm.V()) - Lost(old(tm.V()), BP(tm.count), w, i)
    ensures old(tm.V()) > 0 ==> i > 0
    ensures forall k :: i <= k < arr.Length ==> arr[k] == old(arr[k])
  {
    hide BP, Val, Pow2, Residue, SignedVal, NonAdjacent, NafDigits, Wraps, State, Width, Left, Lost;
    WidthRange(wnd);
    ghost var v, cap := tm.V(), BP(tm.count);
    ghost var z: nat := 0;
    i := 0;
    CapMultiple(tm.count, w);
    tm.Bounds();
    StateStart(v, cap, n, w);
    assert arr[..0] == [];
    while !tm.IsZero()
      invariant tm.Valid() && i <= n + 1
      invariant State(v, cap, n, w, arr[..i], tm.V(), z)
      invariant forall k :: i <= k < arr.Length ==> arr[k] == old(arr[k])
      invariant v > 0 ==> i > 0 || !tm.IsZero()
      decreases n + 1 - i
    {
      tm.Bounds();
      ghost var s, t := arr[..i], tm.V();
      StateRoom(v, cap, n, w, s, t, z);
      var itm := Turn(tm, wnd, w);
      if t % 2 == 0 {
        EvenStep(v, cap, n, w, s, t, z);
        z := if z > 0 then z - 1 else 0;
      } else {
        OddStep(v, cap, n, w, s, t, z, itm);
        z := w - 1;
      }
      arr[i] := itm;
      i := i + 1;
      assert arr[..i] == s + [itm];
    }
    tm.Bounds();
    StateDone(v, cap, n, w, arr[..i], z);
  }

  // ----- failures -----

  /** The largest number wraps in every window: its first digit rounds it up to the size of the storage. */
  lemma LargestWraps(count: nat, w: nat)
    requires count > 0 && 2 <= w <= 8
    ensures BP(count) > 1 && Wraps(BP(count) - 1, BP(count), w) && Residue(BP(count) - 1, w) == -1
  {
    hide Pow2, BP;
    SmallPow2(w);
    CapMultiple(count, w);
    BPMonotonic(1, count);
    BPStep(0);
    var k := BP(count) / Pow2(w);
    ExactQuotient(BP(count), Pow2(w));
    MulAssociative(2, Pow2(w - 1), k);
    Distribute(Pow2(w), k, -1);
    DivModUnique(BP(count) - 1, Pow2(w), k - 1, Pow2(w) - 1);
  }
}
