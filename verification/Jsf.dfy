/** bn_calc_jsf of include/math/big_num.h: the joint sparse form of two numbers. */
module Jsf {
  import opened Common
  import opened Numbers
  import opened Digits
  import opened Shifts
  import opened Bits
  import opened BigNum
  import opened Naf

  // ----- one column -----

  /** The digit of one number, from its low bits l and those of the other number. */
  function JsfDigit(l: nat, other: nat): (u: int)
    requires l < 8
    ensures -1 <= u <= 1 && (u == 0 <==> l % 2 == 0)
  {
    if l % 2 == 0 then 0
    else
      var itm := 2 - l % 4;
      if (l == 3 || l == 5) && other % 4 == 2 then -itm else itm
  }

  type Carry = d: nat | d <= 1

  /** The update of the carries d0 and d1. */
  function NextCarry(d: Carry, itm: int): Carry
  {
    if 2 * d == 1 + itm then 1 - d else d
  }

  /** Halving a number and updating its carry takes off exactly the digit, whatever its sign. */
  lemma CarryExact(v: nat, d: Carry, u: int)
    requires -1 <= u <= 1 && (v + d - u) % 2 == 0
    ensures 2 * (v / 2 + NextCarry(d, u)) == v + d - u
  {}

  predicate ZeroColumn(s: seq<int>, t: seq<int>, i: nat)
    requires |s| == |t|
  {
    i < |s| && s[i] == 0 && t[i] == 0
  }

  /** One of any three consecutive columns is zero. */
  ghost predicate Sparse(s: seq<int>, t: seq<int>)
    requires |s| == |t|
  {
    forall i: nat :: i + 2 < |s| ==> ZeroColumn(s, t, i) || ZeroColumn(s, t, i + 1) || ZeroColumn(s, t, i + 2)
  }

  predicate BothEven(x: nat, y: nat) { x % 2 == 0 && y % 2 == 0 }

  /** Numbers whose column, zero or not, is followed by a zero column. */
  predicate Settling(x: nat, y: nat)
  {
    !(x % 2 == 1 && y % 4 == 2) && !(y % 2 == 1 && x % 4 == 2)
  }

  /** What the last two columns say about the numbers that are left. */
  predicate Follows(s: seq<int>, t: seq<int>, x: nat, y: nat)
    requires |s| == |t|
  {
    && (|s| >= 1 && !ZeroColumn(s, t, |s| - 1) ==> BothEven(x, y) || Settling(x, y))
    && (|s| >= 2 && !ZeroColumn(s, t, |s| - 1) && !ZeroColumn(s, t, |s| - 2) ==> BothEven(x, y))
  }

  lemma ColumnSettles(x: nat, y: nat, x': nat, y': nat)
    requires 2 * x' == x - JsfDigit(x % 8, y % 8) && 2 * y' == y - JsfDigit(y % 8, x % 8)
    requires !BothEven(x, y)
    ensures Settling(x', y')
    ensures Settling(x, y) ==> BothEven(x', y')
  {
    hide JsfDigit, Settling, BothEven;
    var u, v := JsfDigit(x % 8, y % 8), JsfDigit(y % 8, x % 8);
    LowParts(x);
    LowParts(y);
    SameLow(x, y, x % 8, y % 8);
    LowColumn(x % 8, y % 8, u, v);
    var c, d := (x % 8 - u) / 2, (y % 8 - v) / 2;
    HalfLow(x / 8, c, x');
    HalfLow(y / 8, d, y');
    SameLow(x', y', c, d);
  }

  /** The same for the low three bits. */
  lemma LowColumn(r: nat, s: nat, u: int, v: int)
    requires r < 8 && s < 8 && !BothEven(r, s) && u == JsfDigit(r, s) && v == JsfDigit(s, r)
    ensures (r - u) % 2 == 0 && (s - v) % 2 == 0 && r - u >= 0 && s - v >= 0
    ensures var c, d := (r - u) / 2, (s - v) / 2; Settling(c, d) && (Settling(r, s) ==> BothEven(c, d))
  {}

  /** Both tests look at the low two bits only. */
  lemma SameLow(x: nat, y: nat, r: nat, s: nat)
    requires x % 4 == r % 4 && y % 4 == s % 4
    requires x % 2 == r % 2 && y % 2 == s % 2
    ensures BothEven(x, y) == BothEven(r, s) && Settling(x, y) == Settling(r, s)
  {}

  lemma LowParts(x: nat)
    ensures x == 8 * (x / 8) + x % 8 && x % 8 % 2 == x % 2 && x % 8 % 4 == x % 4
  {
    var q, r := x / 8, x % 8;
    ModAddMultiple(r, 4 * q, 2);
    ModAddMultiple(r, 2 * q, 4);
  }

  lemma HalfLow(q: int, c: int, x: int)
    requires x == 4 * q + c
    ensures x % 4 == c % 4 && x % 2 == c % 2
  {
    ModAddMultiple(c, q, 4);
    ModAddMultiple(c, 2 * q, 2);
  }

  lemma SparseStep(s: seq<int>, t: seq<int>, x: nat, y: nat, x': nat, y': nat, u: int, v: int)
    requires |s| == |t| && Sparse(s, t) && Follows(s, t, x, y) && (u == 0 && v == 0 <==> BothEven(x, y))
    requires !BothEven(x, y) ==> Settling(x', y') && (Settling(x, y) ==> BothEven(x', y'))
    ensures Sparse(s + [u], t + [v]) && Follows(s + [u], t + [v], x', y')
  {
    hide BothEven, Settling;
    var s', t', n := s + [u], t + [v], |s|;
    forall i: nat | i <= n ensures ZeroColumn(s', t', i) <==> if i < n then ZeroColumn(s, t, i) else BothEven(x, y) {}
    forall i: nat | i + 2 <= n
      ensures ZeroColumn(s', t', i) || ZeroColumn(s', t', i + 1) || ZeroColumn(s', t', i + 2)
    {
      if i + 2 < n { assert ZeroColumn(s, t, i) || ZeroColumn(s, t, i + 1) || ZeroColumn(s, t, i + 2); }
    }
  }

  // ----- one number -----

  predicate JsfDigits(s: seq<int>) { forall i :: 0 <= i < |s| ==> -1 <= s[i] <= 1 }

  /** After the digits s of v, v / 2^|s| is in the object and d is carried; the digits end one beyond
      the `bits` bits of v. */
  ghost predicate Recoded(v: nat, bits: nat, s: seq<int>, left: nat, d: Carry)
  {
    && SignedVal(s) + Mul(Pow2(|s|), left + d) == v
    && JsfDigits(s) && left == v / Pow2(|s|)
    && v < Pow2(bits) && |s| <= bits + 1 && (|s| > bits ==> d == 0)
  }

  lemma RecodedStart(v: nat, bits: nat)
    requires v < Pow2(bits)
    ensures Recoded(v, bits, [], v, 0)
  {}

  lemma RecodedStep(v: nat, bits: nat, s: seq<int>, left: nat, d: Carry, u: int)
    requires Recoded(v, bits, s, left, d) && -1 <= u <= 1 && (left + d - u) % 2 == 0
    requires left + d == 1 ==> u == 1
    requires |s| <= bits
    ensures Recoded(v, bits, s + [u], left / 2, NextCarry(d, u))
  {
    hide Pow2, SignedVal, Mul;
    var i, n := |s|, left / 2 + NextCarry(d, u);
    CarryExact(left, d, u);
    SignedValAppend(s, u);
    MulIs(Pow2(i), u);
    Pow2Mul(1, i);
    Pow2One();
    MulSum(Pow2(i), u, 2 * n);
    TwoInside(Pow2(i), n);
    DivDiv(v, Pow2(i), 2);
    Pow2Add(i, 1);
    if i == bits { SmallQuotient(v, Pow2(bits)); }
  }

  lemma TwoInside(p: int, n: int)
    ensures Mul(Mul(2, p), n) == Mul(p, 2 * n)
  {}

  lemma SmallQuotient(v: nat, p: nat)
    requires v < p
    ensures v / p == 0
  {
    DivModUnique(v, p, 0, v);
  }

  /** No bits are left after the last place. */
  lemma RecodedRoom(v: nat, bits: nat, s: seq<int>, left: nat, d: Carry)
    requires Recoded(v, bits, s, left, d) && |s| > bits
    ensures left == 0 && d == 0
  {
    hide Pow2, SignedVal, Mul;
    Pow2Monotonic(bits, |s|);
    SmallQuotient(v, Pow2(|s|));
  }

  lemma RecodedDone(v: nat, bits: nat, s: seq<int>)
    requires Recoded(v, bits, s, 0, 0)
    ensures SignedVal(s) == v && JsfDigits(s)
  {
    MulZero(Pow2(|s|));
  }

  // ----- the algorithm -----

  /** What the source reads from an object besides its value: the lowest word of a number that is zero.
      It is zero once a number has been shifted out, but for an operand that is zero from the start it is
      whatever the stack holds. */
  ghost predicate Low(tm: Bn, g: nat)
    reads tm, tm.num
  {
    tm.Valid() && (tm.digits == 0 ==> tm.num[0] == g) && (g > 0 ==> tm.digits == 0)
  }

  lemma LowBitsRead(tm: Bn, g: nat, d: nat)
    requires Low(tm, g)
    ensures (tm.num[0] + d) % 8 == (tm.V() + d + g) % 8
  {
    if tm.digits == 0 {
      assert tm.V() == 0;
    } else {
      var s := tm.num[..tm.digits];
      assert tm.V() == s[0] + B * Val(s[1..]);
      ModAddMultiple(s[0] + d, B / 8 * Val(s[1..]), 8);
    }
  }

  method ShiftOut(tm: Bn, ghost g: nat)
    requires Low(tm, g)
    modifies tm`digits, tm.num
    ensures Low(tm, g) && tm.V() == old(tm.V()) / 2
  {
    hide BP, Val, Pow2;
    tm.Bounds();
    Pow2One();
    tm.RShift(1);
    tm.Bounds();
  }

  /** The columns with stale low words gx and gy beside the numbers x and y. */
  ghost predicate Columns(s: seq<int>, t: seq<int>, x: nat, y: nat, gx: nat, gy: nat)
  {
    |s| == |t| && (gx % 4 == 0 && gy % 4 == 0 ==> Sparse(s, t) && Follows(s, t, x, y))
  }

  lemma ZeroDigits(x: nat, y: nat)
    ensures JsfDigit(x % 8, y % 8) == 0 && JsfDigit(y % 8, x % 8) == 0 <==> BothEven(x, y)
  {
    hide JsfDigit;
    LowParts(x);
    LowParts(y);
  }

  lemma SameDigit(x: nat, y: nat, gx: nat, gy: nat)
    requires gx % 4 == 0 && gy % 4 == 0 && (gx > 0 ==> x == 0) && (gy > 0 ==> y == 0)
    ensures JsfDigit((x + gx) % 8, (y + gy) % 8) == JsfDigit(x % 8, y % 8)
  {
    LowParts(gy);
    if gx > 0 {
      LowParts(gx);
      assert gx % 2 == 0;
    } else if gy > 0 {
      assert gy % 8 % 4 == 0;
    }
  }

  lemma ColumnsStep(s: seq<int>, t: seq<int>, x: nat, y: nat, gx: nat, gy: nat, x': nat, y': nat)
    requires Columns(s, t, x, y, gx, gy) && (gx > 0 ==> x == 0) && (gy > 0 ==> y == 0)
    requires 2 * x' == x - JsfDigit((x + gx) % 8, (y + gy) % 8)
    requires 2 * y' == y - JsfDigit((y + gy) % 8, (x + gx) % 8)
    ensures Columns(s + [JsfDigit((x + gx) % 8, (y + gy) % 8)], t + [JsfDigit((y + gy) % 8, (x + gx) % 8)],
                    x', y', gx, gy)
  {
    hide JsfDigit, Sparse, Follows, BothEven, Settling;
    if gx % 4 == 0 && gy % 4 == 0 {
      SameDigit(x, y, gx, gy);
      SameDigit(y, x, gy, gx);
      var u, v := JsfDigit(x % 8, y % 8), JsfDigit(y % 8, x % 8);
      ZeroDigits(x, y);
      if !BothEven(x, y) { ColumnSettles(x, y, x', y'); }
      SparseStep(s, t, x, y, x', y', u, v);
    }
  }

  /** The digits of one column; the stale words are even. */
  lemma DigitFor(x: nat, y: nat, gx: nat, gy: nat)
    requires gx % 2 == 0 && (gx > 0 ==> x == 0)
    ensures var u := JsfDigit((x + gx) % 8, (y + gy) % 8);
      -1 <= u <= 1 && (x - u) % 2 == 0 && (x == 1 ==> u == 1) && (x == 0 ==> u == 0)
  {
    hide JsfDigit;
    var u := JsfDigit((x + gx) % 8, (y + gy) % 8);
    LowParts(x + gx);
    DigitParity(x, u);
    if x == 1 { DigitOne((y + gy) % 8); }
  }

  lemma DigitParity(x: nat, u: int)
    requires -1 <= u <= 1 && (u == 0 <==> x % 2 == 0)
    ensures (x - u) % 2 == 0
  {}

  lemma DigitOne(other: nat)
    ensures JsfDigit(1, other) == 1
  {}

  // ----- the loop as a function -----

  /** What is left of the two numbers, and their carries. */
  datatype Left = Left(x: nat, y: nat, d0: Carry, d1: Carry)

  /** The words that are read for operands that are zero from the start. */
  datatype Words = Words(gx: nat, gy: nat)

  function DigitU(c: Left, w: Words): int { JsfDigit((c.x + c.d0 + w.gx) % 8, (c.y + c.d1 + w.gy) % 8) }

  function DigitV(c: Left, w: Words): int { JsfDigit((c.y + c.d1 + w.gy) % 8, (c.x + c.d0 + w.gx) % 8) }

  function Next(c: Left, w: Words): Left
  {
    Left(c.x / 2, c.y / 2, NextCarry(c.d0, DigitU(c, w)), NextCarry(c.d1, DigitV(c, w)))
  }

  /** The loop test fails. */
  predicate Over(c: Left) { c.x + c.d0 + c.y + c.d1 == 0 }

  /** What is left after n turns, and the digits they write. */
  function After(c: Left, w: Words, n: nat): Left { if n == 0 then c else Next(After(c, w, n - 1), w) }

  function Us(c: Left, w: Words, n: nat): (s: seq<int>)
    ensures |s| == n && JsfDigits(s)
  {
    if n == 0 then [] else Us(c, w, n - 1) + [DigitU(After(c, w, n - 1), w)]
  }

  function Vs(c: Left, w: Words, n: nat): (s: seq<int>)
    ensures |s| == n && JsfDigits(s)
  {
    if n == 0 then [] else Vs(c, w, n - 1) + [DigitV(After(c, w, n - 1), w)]
  }

  /** The loop runs for n turns at least. */
  ghost predicate Runs(c: Left, w: Words, n: nat) { forall k: nat :: k < n ==> !Over(After(c, w, k)) }

  lemma Begin(c: Left, w: Words)
    ensures After(c, w, 0) == c && Us(c, w, 0) == [] && Vs(c, w, 0) == [] && Runs(c, w, 0)
  {}

  lemma Turn(c: Left, w: Words, n: nat, e: Left)
    requires Runs(c, w, n) && After(c, w, n) == e && !Over(e)
    ensures Runs(c, w, n + 1) && After(c, w, n + 1) == Next(e, w)
    ensures Us(c, w, n + 1) == Us(c, w, n) + [DigitU(e, w)] && Vs(c, w, n + 1) == Vs(c, w, n) + [DigitV(e, w)]
  {
    hide Over, Next, DigitU, DigitV;
  }

  ghost predicate Stops(c: Left, w: Words, n: nat) { Runs(c, w, n) && Over(After(c, w, n)) }

  function Start(a: nat, b: nat): Left { Left(a, b, 0, 0) }

  function MaxBits(a: nat, b: nat): nat { Max(BitLen(a), BitLen(b)) }

  /** Only operands that are zero have such words. */
  predicate Plausible(a: nat, b: nat, w: Words) { (w.gx > 0 ==> a == 0) && (w.gy > 0 ==> b == 0) }

  /** The words cannot disturb the sums. */
  predicate Harmless(a: nat, b: nat, w: Words) { (a == 0 <==> b == 0) || (w.gx % 2 == 0 && w.gy % 2 == 0) }

  ghost predicate Sums(a: nat, b: nat, w: Words, n: nat)
  {
    SignedVal(Us(Start(a, b), w, n)) == a && SignedVal(Vs(Start(a, b), w, n)) == b
  }

  ghost predicate SparseRun(a: nat, b: nat, w: Words, n: nat)
  {
    Sparse(Us(Start(a, b), w, n), Vs(Start(a, b), w, n))
  }

  /** The loop ends inside the array, and the digits sum to the numbers. */
  ghost predicate RightSums(a: nat, b: nat, w: Words)
  {
    exists n: nat :: n <= MaxBits(a, b) + 1 && Stops(Start(a, b), w, n) && Sums(a, b, w, n)
  }

  ghost predicate RightForm(a: nat, b: nat, w: Words)
  {
    exists n: nat :: n <= MaxBits(a, b) + 1 && Stops(Start(a, b), w, n) && Sums(a, b, w, n) && SparseRun(a, b, w, n)
  }

  /** The state of the loop. */
  ghost predicate Twin(va: nat, vb: nat, n: nat, s: seq<int>, t: seq<int>, c: Left, w: Words)
  {
    && |s| == |t| && Recoded(va, n, s, c.x, c.d0) && Recoded(vb, n, t, c.y, c.d1)
    && Columns(s, t, c.x + c.d0, c.y + c.d1, w.gx, w.gy)
    && (w.gx > 0 ==> c.d0 == 0 && c.x == 0) && (w.gy > 0 ==> c.d1 == 0 && c.y == 0)
  }

  lemma TwinStart(va: nat, vb: nat, n: nat, w: Words)
    requires va < Pow2(n) && vb < Pow2(n) && Plausible(va, vb, w)
    ensures Twin(va, vb, n, [], [], Start(va, vb), w)
  {
    hide Recoded, Pow2;
    RecodedStart(va, n);
    RecodedStart(vb, n);
  }

  lemma TwinStep(va: nat, vb: nat, n: nat, s: seq<int>, t: seq<int>, c: Left, w: Words)
    requires Twin(va, vb, n, s, t, c, w) && w.gx % 2 == 0 && w.gy % 2 == 0 && !Over(c)
    ensures |s| <= n && Twin(va, vb, n, s + [DigitU(c, w)], t + [DigitV(c, w)], Next(c, w), w)
  {
    hide Recoded, Columns, JsfDigit, NextCarry;
    RecodedParts(va, n, s, c.x, c.d0);
    RecodedParts(vb, n, t, c.y, c.d1);
    var u, v := DigitU(c, w), DigitV(c, w);
    DigitFor(c.x + c.d0, c.y + c.d1, w.gx, w.gy);
    DigitFor(c.y + c.d1, c.x + c.d0, w.gy, w.gx);
    RecodedStep(va, n, s, c.x, c.d0, u);
    RecodedStep(vb, n, t, c.y, c.d1, v);
    CarryExact(c.x, c.d0, u);
    CarryExact(c.y, c.d1, v);
    ColumnsStep(s, t, c.x + c.d0, c.y + c.d1, w.gx, w.gy, c.x / 2 + NextCarry(c.d0, u), c.y / 2 + NextCarry(c.d1, v));
  }

  lemma RecodedParts(v: nat, bits: nat, s: seq<int>, left: nat, d: Carry)
    requires Recoded(v, bits, s, left, d)
    ensures |s| <= bits + 1 && (|s| > bits ==> left + d == 0)
  {
    hide SignedVal, Mul, Pow2;
    if |s| > bits { RecodedRoom(v, bits, s, left, d); }
  }

  /** With even words every turn keeps the state, and no turn begins after the last place. */
  lemma {:induction false} TwinRuns(va: nat, vb: nat, bits: nat, w: Words, n: nat)
    requires va < Pow2(bits) && vb < Pow2(bits) && Plausible(va, vb, w) && w.gx % 2 == 0 && w.gy % 2 == 0
    requires Runs(Start(va, vb), w, n)
    ensures n <= bits + 1
    ensures Twin(va, vb, bits, Us(Start(va, vb), w, n), Vs(Start(va, vb), w, n), After(Start(va, vb), w, n), w)
  {
    hide Pow2, Twin, Over, Next, DigitU, DigitV;
    var c := Start(va, vb);
    if n == 0 {
      TwinStart(va, vb, bits, w);
    } else {
      TwinRuns(va, vb, bits, w, n - 1);
      TwinStep(va, vb, bits, Us(c, w, n - 1), Vs(c, w, n - 1), After(c, w, n - 1), w);
    }
  }

  lemma TwinDone(va: nat, vb: nat, n: nat, s: seq<int>, t: seq<int>, c: Left, w: Words)
    requires Twin(va, vb, n, s, t, c, w) && Over(c)
    ensures SignedVal(s) == va && SignedVal(t) == vb && |s| == |t|
    ensures w.gx % 4 == 0 && w.gy % 4 == 0 ==> Sparse(s, t)
  {
    hide Recoded, Sparse, SignedVal, JsfDigits;
    RecodedDone(va, n, s);
    RecodedDone(vb, n, t);
  }

  /** With even words the loop ends with the right sums, and with multiples of four with a sparse form. */
  lemma EvenWords(a: nat, b: nat, w: Words) returns (n: nat)
    requires Plausible(a, b, w) && w.gx % 2 == 0 && w.gy % 2 == 0
    ensures n <= MaxBits(a, b) + 1 && Stops(Start(a, b), w, n) && Sums(a, b, w, n)
    ensures w.gx % 4 == 0 && w.gy % 4 == 0 ==> SparseRun(a, b, w, n)
  {
    hide Pow2, BitLen, Twin, Over, After, Us, Vs, SignedVal, Sparse;
    var c, bits := Start(a, b), MaxBits(a, b);
    BitLenBounds(a);
    BitLenBounds(b);
    Pow2Monotonic(BitLen(a), bits);
    Pow2Monotonic(BitLen(b), bits);
    n := 0;
    TwinRuns(a, b, bits, w, n);
    while !Over(After(c, w, n))
      invariant n <= bits + 1 && Runs(c, w, n)
      decreases bits + 2 - n
    {
      TwinRuns(a, b, bits, w, n + 1);
      n := n + 1;
    }
    TwinRuns(a, b, bits, w, n);
    TwinDone(a, b, bits, Us(c, w, n), Vs(c, w, n), After(c, w, n), w);
  }

  lemma NothingToRecode(w: Words)
    ensures Stops(Start(0, 0), w, 0) && Sums(0, 0, w, 0) && SparseRun(0, 0, w, 0)
  {
    SignedValEmpty();
  }

  lemma {:induction false} FirstDigits(c: Left, w: Words, n: nat)
    requires n > 0
    ensures Us(c, w, n)[0] == DigitU(c, w) && Vs(c, w, n)[0] == DigitV(c, w)
  {
    if n > 1 { FirstDigits(c, w, n - 1); }
  }

  /** Beside one zero operand an odd word makes its first digit odd, and the digits cannot sum to zero. */
  lemma OddWords(a: nat, b: nat, w: Words, n: nat)
    requires Plausible(a, b, w) && !Harmless(a, b, w) && Stops(Start(a, b), w, n)
    ensures !Sums(a, b, w, n)
  {
    hide Us, Vs, DigitU, DigitV, Runs, After, SignedVal, JsfDigits;
    Begin(Start(a, b), w);
    assert n > 0;
    FirstDigits(Start(a, b), w, n);
    OddColumn(a, b, w);
    OddStart(Us(Start(a, b), w, n));
    OddStart(Vs(Start(a, b), w, n));
  }

  lemma OddColumn(a: nat, b: nat, w: Words)
    requires Plausible(a, b, w)
    ensures w.gx % 2 == 1 ==> a == 0 && DigitU(Start(a, b), w) != 0
    ensures w.gy % 2 == 1 ==> b == 0 && DigitV(Start(a, b), w) != 0
    ensures -1 <= DigitU(Start(a, b), w) <= 1 && -1 <= DigitV(Start(a, b), w) <= 1
  {
    hide JsfDigit;
    LowParts(w.gx);
    LowParts(w.gy);
  }

  lemma OddStart(s: seq<int>)
    requires s != []
    ensures s[0] != 0 && -1 <= s[0] <= 1 ==> SignedVal(s) != 0
  {}

  /** For given words: the loop ends inside the array with the right sums exactly when the words are even or do
      not matter. */
  lemma SumsIff(a: nat, b: nat, w: Words)
    requires Plausible(a, b, w)
    ensures RightSums(a, b, w) <==> Harmless(a, b, w)
  {
    hide Stops, Sums, MaxBits;
    if !Harmless(a, b, w) {
      forall n: nat | Stops(Start(a, b), w, n) ensures !Sums(a, b, w, n) { OddWords(a, b, w, n); }
    } else if a == 0 && b == 0 {
      NothingToRecode(w);
    } else {
      var n := EvenWords(a, b, w);
    }
  }

  /** For the caller: the loop ends inside the array with the joint sparse form of both numbers, whatever the
      words hold, exactly when none or both of them are zero. */
  lemma FormIff(a: nat, b: nat)
    ensures (forall w: Words :: Plausible(a, b, w) ==> RightForm(a, b, w)) <==> (a == 0 <==> b == 0)
  {
    hide Stops, Sums, MaxBits, SparseRun;
    if a == 0 && b == 0 {
      forall w: Words ensures RightForm(0, 0, w) { NothingToRecode(w); }
    } else if a > 0 && b > 0 {
      forall w: Words | Plausible(a, b, w) ensures RightForm(a, b, w) { var n := EvenWords(a, b, w); }
    } else {
      var w := if a == 0 then Words(1, 0) else Words(0, 1);
      SumsIff(a, b, w);
      assert Plausible(a, b, w) && !RightForm(a, b, w);
    }
  }

  // ----- the operands exchanged -----

  function Swapped(c: Left): Left { Left(c.y, c.x, c.d1, c.d0) }

  function SwappedWords(w: Words): Words { Words(w.gy, w.gx) }

  /** Exchanging the operands exchanges the digits. */
  lemma {:induction false} RunSwapped(c: Left, w: Words, n: nat)
    ensures After(Swapped(c), SwappedWords(w), n) == Swapped(After(c, w, n))
    ensures Us(Swapped(c), SwappedWords(w), n) == Vs(c, w, n) && Vs(Swapped(c), SwappedWords(w), n) == Us(c, w, n)
  {
    hide JsfDigit, NextCarry;
    if n > 0 { RunSwapped(c, w, n - 1); }
  }

  lemma StopsSwapped(c: Left, w: Words, n: nat)
    ensures Stops(Swapped(c), SwappedWords(w), n) == Stops(c, w, n)
  {
    hide After, Next;
    forall k: nat ensures Over(After(Swapped(c), SwappedWords(w), k)) == Over(After(c, w, k)) { RunSwapped(c, w, k); }
  }

  lemma SparseSwapped(s: seq<int>, t: seq<int>)
    requires |s| == |t|
    ensures Sparse(s, t) == Sparse(t, s)
  {
    forall i: nat ensures ZeroColumn(s, t, i) == ZeroColumn(t, s, i) {}
  }

  lemma FormSwapped(a: nat, b: nat, w: Words)
    ensures RightForm(b, a, SwappedWords(w)) == RightForm(a, b, w)
  {
    hide Stops, Us, Vs, SignedVal, Sparse, MaxBits;
    forall n: nat
      ensures Stops(Start(b, a), SwappedWords(w), n) == Stops(Start(a, b), w, n)
      ensures Sums(b, a, SwappedWords(w), n) == Sums(a, b, w, n)
      ensures SparseRun(b, a, SwappedWords(w), n) == SparseRun(a, b, w, n)
    {
      StopsSwapped(Start(a, b), w, n);
      RunSwapped(Start(a, b), w, n);
      SparseSwapped(Us(Start(a, b), w, n), Vs(Start(a, b), w, n));
    }
    SameBits(a, b);
  }

  lemma SameBits(a: nat, b: nat)
    ensures MaxBits(a, b) == MaxBits(b, a)
  {}

  // ----- where it fails -----

  /** Beside a zero number with a word of 3 modulo 4 the loop never ends: its carry gets stuck. */
  lemma {:induction false} NeverEnds(b: nat, g: nat, n: nat)
    requires b > 0 && g % 4 == 3
    ensures !Over(After(Start(0, b), Words(g, 0), n))
    ensures var c := After(Start(0, b), Words(g, 0), n); c.x == 0 && (c.d0 == 1 || c.y + c.d1 > 0)
  {
    if n > 0 {
      NeverEnds(b, g, n - 1);
      StuckStep(After(Start(0, b), Words(g, 0), n - 1), g);
    }
  }

  /** The same beside a zero second operand. */
  lemma NeverEndsSwapped(a: nat, g: nat, n: nat)
    requires a > 0 && g % 4 == 3
    ensures !Over(After(Start(a, 0), Words(0, g), n))
  {
    hide After;
    NeverEnds(a, g, n);
    RunSwapped(Start(0, a), Words(g, 0), n);
  }

  lemma StuckStep(c: Left, g: nat)
    requires g % 4 == 3 && c.x == 0 && (c.d0 == 1 || c.y + c.d1 > 0)
    ensures var e := Next(c, Words(g, 0)); e.x == 0 && (e.d0 == 1 || e.y + e.d1 > 0)
  {
    LowParts(g);
    var l, m := g % 8, c.y + c.d1;
    LowParts(m);
    assert l == 3 || l == 7;
    if c.d0 == 1 {
      assert (g + 1) % 8 == (l + 1) % 8;
    } else if DigitU(c, Words(g, 0)) == 1 {
      assert m % 4 == 2;
      CarryExact(c.y, c.d1, DigitV(c, Words(g, 0)));
    }
  }

  /** Zero and one with the stale word 7: the loop runs over its part of the array. */
  lemma OverrunAt()
    ensures Runs(Start(0, 1), Words(7, 0), MaxBits(0, 1) + 2) && !RightSums(0, 1, Words(7, 0))
  {
    hide Over, After, MaxBits;
    forall n: nat ensures !Over(After(Start(0, 1), Words(7, 0), n)) { NeverEnds(1, 7, n); }
  }

  /** Zero and one with the stale word 1: the loop ends, and the digits of the zero sum to one. */
  lemma WrongSumAt(w: Words)
    requires w == Words(1, 0)
    ensures Stops(Start(0, 1), w, 1)
    ensures Us(Start(0, 1), w, 1) == [1] && Vs(Start(0, 1), w, 1) == [1] && SignedVal([1]) == 1
  {
    hide After, Us, Vs, Runs, Next, DigitU, DigitV, SignedVal;
    var c := Start(0, 1);
    Begin(c, w);
    OneColumn(c, w);
    Turn(c, w, 0, c);
    assert [] + [1] == [1];
    SumOf(1, []);
    SignedValEmpty();
  }

  lemma OneColumn(c: Left, w: Words)
    requires c == Start(0, 1) && w == Words(1, 0)
    ensures DigitU(c, w) == 1 && DigitV(c, w) == 1 && Next(c, w) == Left(0, 0, 0, 0)
  {}

  lemma SumOf(d: int, s: seq<int>)
    ensures SignedVal([d] + s) == d + 2 * SignedVal(s)
    ensures [d] + [] == [d]
  {
    assert ([d] + s)[1..] == s;
  }

  /** Beside a word of 2 modulo 4 the number eleven is recoded as 1 - 2 + 4 + 8, without a zero column. */
  lemma ElevenAt(g: nat)
    requires g % 4 == 2
    ensures var w := Words(g, 0); Stops(Start(0, 11), w, 4) && Sums(0, 11, w, 4) && !SparseRun(0, 11, w, 4)
  {
    hide After, Us, Vs, Stops, SignedVal;
    ElevenRun(g);
    SumsOfEleven();
    var s, t := [0, 0, 0, 0], [1, -1, 1, 1];
    assert !ZeroColumn(s, t, 0) && !ZeroColumn(s, t, 1) && !ZeroColumn(s, t, 2);
  }

  lemma ElevenRun(g: nat)
    requires g % 4 == 2
    ensures var c, w := Start(0, 11), Words(g, 0);
      Stops(c, w, 4) && Us(c, w, 4) == [0, 0, 0, 0] && Vs(c, w, 4) == [1, -1, 1, 1]
  {
    hide After, Us, Vs, Runs;
    var c, w := Start(0, 11), Words(g, 0);
    Begin(c, w);
    BesideTwo(c, w, 0, 11, 0, 1);
    BesideTwo(c, w, 1, 5, 0, -1);
    BesideTwo(c, w, 2, 2, 1, 1);
    BesideTwo(c, w, 3, 1, 0, 1);
    Columns4(Us(c, w, 1), Us(c, w, 2), Us(c, w, 3), Us(c, w, 4), 0, 0, 0, 0);
    Columns4(Vs(c, w, 1), Vs(c, w, 2), Vs(c, w, 3), Vs(c, w, 4), 1, -1, 1, 1);
  }

  lemma BesideTwo(c: Left, w: Words, n: nat, y: nat, d: Carry, v: int)
    requires w.gx % 4 == 2 && w.gy == 0 && Runs(c, w, n) && After(c, w, n) == Left(0, y, 0, d) && y + d > 0
    requires v == JsfDigit((y + d) % 8, 2)
    ensures Us(c, w, n + 1) == Us(c, w, n) + [0] && Vs(c, w, n + 1) == Vs(c, w, n) + [v]
    ensures After(c, w, n + 1) == Left(0, y / 2, 0, NextCarry(d, v)) && Runs(c, w, n + 1)
  {
    hide After, Us, Vs, Runs;
    Turn(c, w, n, Left(0, y, 0, d));
    LowParts(w.gx);
  }

  lemma Columns4(s1: seq<int>, s2: seq<int>, s3: seq<int>, s4: seq<int>, a: int, b: int, c: int, d: int)
    requires s1 == [] + [a] && s2 == s1 + [b] && s3 == s2 + [c] && s4 == s3 + [d]
    ensures s4 == [a, b, c, d]
  {}

  lemma SumsOfEleven()
    ensures SignedVal([0, 0, 0, 0]) == 0 && SignedVal([1, -1, 1, 1]) == 11
  {
    hide SignedVal;
    SignedValEmpty();
    SumOf(0, []);
    SumOf(0, [0]);
    SumOf(0, [0, 0]);
    SumOf(0, [0, 0, 0]);
    SumOf(1, []);
    SumOf(1, [1]);
    SumOf(-1, [1, 1]);
    SumOf(1, [-1, 1, 1]);
    assert [0] + [0] == [0, 0] && [0] + [0, 0] == [0, 0, 0] && [0] + [0, 0, 0] == [0, 0, 0, 0];
    assert [1] + [1] == [1, 1] && [-1] + [1, 1] == [-1, 1, 1] && [1] + [-1, 1, 1] == [1, -1, 1, 1];
  }

  /** For the word: beside a zero number every nonzero one gets its joint sparse form exactly when the word is a
      multiple of four. */
  lemma WordIff(g: nat)
    ensures (forall b: nat :: b > 0 ==> RightForm(0, b, Words(g, 0))) <==> g % 4 == 0
  {
    hide RightForm;
    if g % 4 == 0 {
      forall b: nat | b > 0 ensures RightForm(0, b, Words(g, 0)) { MultipleOfFour(b, g); }
    } else {
      ElevenFails(g);
    }
  }

  /** The same for a zero second operand. */
  lemma WordIffSwapped(g: nat)
    ensures (forall a: nat :: a > 0 ==> RightForm(a, 0, Words(0, g))) <==> g % 4 == 0
  {
    hide RightForm;
    forall a: nat ensures RightForm(a, 0, Words(0, g)) == RightForm(0, a, Words(g, 0)) {
      FormSwapped(0, a, Words(g, 0));
    }
    WordIff(g);
  }

  lemma MultipleOfFour(b: nat, g: nat)
    requires g % 4 == 0
    ensures RightForm(0, b, Words(g, 0))
  {
    hide Stops, Sums, MaxBits, SparseRun;
    FourIsEven(g);
    var n := EvenWords(0, b, Words(g, 0));
  }

  lemma FourIsEven(g: nat)
    requires g % 4 == 0
    ensures g % 2 == 0
  {
    LowParts(g);
    LowFour(g % 8);
  }

  lemma LowFour(l: nat)
    requires l < 8 && l % 4 == 0
    ensures l % 2 == 0
  {}

  lemma ElevenFails(g: nat)
    requires g % 4 != 0
    ensures !RightForm(0, 11, Words(g, 0))
  {
    hide Stops, Sums, MaxBits, SparseRun;
    var w := Words(g, 0);
    forall n: nat | Stops(Start(0, 11), w, n) ensures !Sums(0, 11, w, n) || !SparseRun(0, 11, w, n) {
      if g % 4 == 2 {
        ElevenAt(g);
        StopsOnce(Start(0, 11), w, 4, n);
      } else {
        OddWords(0, 11, w, n);
      }
    }
  }

  // ----- the methods -----

  /** The word that is read for an operand that is zero: what the local object holds. */
  ghost function Stale(a: Bn, tm: Bn): nat
    requires tm.num.Length == MAX_DIGITS
    reads a, tm.num
  {
    if a.digits == 0 then tm.num[0] else 0
  }

  /** bn_calc_jsf. The local objects tmA and tmB are parameters because the source reads a word of them that it
      has not written when an operand is zero. Where its loop would leave the array, `ended` is false. */
  method CalcJsf(a: Bn, b: Bn, size: nat, arr: array<int>, tmA: Bn, tmB: Bn)
    returns (status: Status, cnt: nat, offset: nat, ended: bool)
    requires a.Valid() && b.Valid() && size <= arr.Length
    requires tmA.num.Length == MAX_DIGITS && tmB.num.Length == MAX_DIGITS && tmA.Apart(tmB)
    requires a.Apart(tmA) && a.Apart(tmB) && b.Apart(tmA) && b.Apart(tmB)
    modifies arr, tmA, tmA.num, tmB, tmB.num
    ensures offset == MaxBits(a.V(), b.V()) + 1
    ensures status == if size < 2 * offset then EOVERFLOW else Ok
    ensures status.Ok? ==> cnt <= offset && (!ended ==> cnt == offset)
    ensures status.Ok? ==>
      var c, w := Start(a.V(), b.V()), old(Words(Stale(a, tmA), Stale(b, tmB)));
      && arr[..cnt] == Us(c, w, cnt) && arr[offset..offset + cnt] == Vs(c, w, cnt)
      && Runs(c, w, cnt) && (ended <==> Over(After(c, w, cnt)))
    ensures status.Ok? ==>
      (ended && SignedVal(arr[..cnt]) == a.V() && SignedVal(arr[offset..offset + cnt]) == b.V()
       <==> Harmless(a.V(), b.V(), old(Words(Stale(a, tmA), Stale(b, tmB)))))
    ensures status.Ok? && (a.V() == 0 <==> b.V() == 0) ==> Sparse(arr[..cnt], arr[offset..offset + cnt])
  {
    hide BP, Val, Pow2, BitLen, Us, Vs, Over, After;
    cnt := 0;
    ended := false;
    var bitsA := a.CalcBits();
    var bitsB := b.CalcBits();
    offset := Max(bitsA, bitsB) + 1;
    if size < 2 * offset { return EOVERFLOW, 0, offset, false; }
    ghost var w := Words(Stale(a, tmA), Stale(b, tmB));
    a.Bounds();
    b.Bounds();
    tmA.AssignInit(a);
    tmB.AssignInit(b);
    cnt, ended := JsfLoop(arr, offset, tmA, tmB, w);
    JsfOutcome(a.V(), b.V(), w, cnt);
    status := Ok;
  }

  /** What the loop leaves, at its end or at the end of its part of the array. */
  lemma JsfOutcome(a: nat, b: nat, w: Words, n: nat)
    requires Plausible(a, b, w) && Runs(Start(a, b), w, n) && n <= MaxBits(a, b) + 1
    requires !Over(After(Start(a, b), w, n)) ==> n == MaxBits(a, b) + 1
    ensures Over(After(Start(a, b), w, n)) && Sums(a, b, w, n) <==> Harmless(a, b, w)
    ensures (a == 0 <==> b == 0) ==> SparseRun(a, b, w, n)
  {
    hide MaxBits, Us, Vs, Over, After, SignedVal, Sparse;
    var c := Start(a, b);
    if a == 0 && b == 0 {
      NothingToRecode(w);
      OneStop(c, w, 0, n);
    } else if Harmless(a, b, w) {
      var k := EvenWords(a, b, w);
      OneStop(c, w, k, n);
    } else if Over(After(c, w, n)) {
      OddWords(a, b, w, n);
    }
  }

  /** The loop stops only once, and later turns do not begin. */
  lemma OneStop(c: Left, w: Words, k: nat, n: nat)
    requires Stops(c, w, k) && Runs(c, w, n)
    ensures n <= k && (Over(After(c, w, n)) ==> n == k)
  {
    hide Over, After;
  }

  lemma StopsOnce(c: Left, w: Words, k: nat, n: nat)
    requires Stops(c, w, k) && Stops(c, w, n)
    ensures k == n
  {
    hide Over, After;
  }

  /** The loop of bn_calc_jsf. */
  method JsfLoop(arr: array<int>, offset: nat, tmA: Bn, tmB: Bn, ghost w: Words) returns (i: nat, ended: bool)
    requires offset > 0 && 2 * offset <= arr.Length && Low(tmA, w.gx) && Low(tmB, w.gy) && tmA.Apart(tmB)
    modifies arr, tmA`digits, tmA.num, tmB`digits, tmB.num
    ensures i <= offset && (!ended ==> i == offset)
    ensures var c := Start(old(tmA.V()), old(tmB.V()));
      && arr[..i] == Us(c, w, i) && arr[offset..offset + i] == Vs(c, w, i)
      && Runs(c, w, i) && (ended <==> Over(After(c, w, i)))
  {
    hide BP, Val, Us, Vs, After, Runs, Low, JsfDigits;
    LowTest(tmA, w.gx);
    LowTest(tmB, w.gy);
    ghost var c := Start(tmA.V(), tmB.V());
    var d0: Carry, d1: Carry := 0, 0;
    i := 0;
    Begin(c, w);
    assert arr[..0] == [] && arr[offset..offset + 0] == [];
    while (!tmA.IsZero() || d0 != 0) || (!tmB.IsZero() || d1 != 0)
      invariant i <= offset && Low(tmA, w.gx) && Low(tmB, w.gy)
      invariant tmA.Valid() && tmB.Valid() && tmA.IsZero() == (tmA.V() == 0) && tmB.IsZero() == (tmB.V() == 0)
      invariant After(c, w, i) == Left(tmA.V(), tmB.V(), d0, d1) && Runs(c, w, i)
      invariant arr[..i] == Us(c, w, i) && arr[offset..offset + i] == Vs(c, w, i)
      decreases offset - i
    {
      if i == offset { return i, false; }
      Turn(c, w, i, Left(tmA.V(), tmB.V(), d0, d1));
      d0, d1 := JsfTurn(arr, offset, tmA, tmB, i, d0, d1, c, w);
      i := i + 1;
      LowTest(tmA, w.gx);
      LowTest(tmB, w.gy);
    }
    ended := true;
  }

  lemma LowTest(tm: Bn, g: nat)
    requires Low(tm, g)
    ensures tm.Valid() && (tm.IsZero() <==> tm.V() == 0)
  {
    tm.Bounds();
  }

  /** One turn of the loop: a column is written and both numbers are halved. */
  method JsfTurn(arr: array<int>, offset: nat, tmA: Bn, tmB: Bn, i: nat, d0: Carry, d1: Carry,
                 ghost c: Left, ghost w: Words) returns (e0: Carry, e1: Carry)
    requires i < offset && 2 * offset <= arr.Length && Low(tmA, w.gx) && Low(tmB, w.gy) && tmA.Apart(tmB)
    requires After(c, w, i) == Left(tmA.V(), tmB.V(), d0, d1) && Runs(c, w, i) && !Over(After(c, w, i))
    requires arr[..i] == Us(c, w, i) && arr[offset..offset + i] == Vs(c, w, i)
    modifies arr, tmA`digits, tmA.num, tmB`digits, tmB.num
    ensures Low(tmA, w.gx) && Low(tmB, w.gy) && After(c, w, i + 1) == Left(tmA.V(), tmB.V(), e0, e1)
    ensures arr[..i + 1] == Us(c, w, i + 1) && arr[offset..offset + i + 1] == Vs(c, w, i + 1)
  {
    hide BP, Val, JsfDigit, NextCarry, Us, Vs, After, Runs;
    ghost var s, t := arr[..i], arr[offset..offset + i];
    Turn(c, w, i, Left(tmA.V(), tmB.V(), d0, d1));
    var u, v := JsfColumn(tmA, tmB, d0, d1, w.gx, w.gy);
    arr[i] := u;
    e0 := NextCarry(d0, u);
    arr[i + offset] := v;
    e1 := NextCarry(d1, v);
    assert arr[..i + 1] == s + [u];
    assert arr[offset..offset + i + 1] == t + [v];
    ghost var s', t' := arr[..i + 1], arr[offset..offset + i + 1];
    ShiftOut(tmA, w.gx);
    ShiftOut(tmB, w.gy);
    assert arr[..i + 1] == s' && arr[offset..offset + i + 1] == t';
  }

  /** The two digits of one column. */
  method JsfColumn(tmA: Bn, tmB: Bn, d0: Carry, d1: Carry, ghost gx: nat, ghost gy: nat) returns (u: int, v: int)
    requires Low(tmA, gx) && Low(tmB, gy)
    ensures u == JsfDigit((tmA.V() + d0 + gx) % 8, (tmB.V() + d1 + gy) % 8)
    ensures v == JsfDigit((tmB.V() + d1 + gy) % 8, (tmA.V() + d0 + gx) % 8)
  {
    hide BP, Val, JsfDigit;
    LowBitsRead(tmA, gx, d0);
    LowBitsRead(tmB, gy, d1);
    var l0 := (tmA.num[0] + d0) % 8;
    var l1 := (tmB.num[0] + d1) % 8;
    u := JsfDigit(l0, l1);
    v := JsfDigit(l1, l0);
  }
}
