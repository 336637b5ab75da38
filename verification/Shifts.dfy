/** bn_digits_l_shift and bn_digits_r_shift, with their byte-wise memmove shortcut. */
module Shifts {
  import opened Common
  import opened Numbers
  import opened Digits

  // ----- digits seen as little-endian bytes -----

  const DIGIT_SIZE: nat := 8

  function ByteVal(s: seq<Byte>): nat
  {
    if s == [] then 0 else s[0] + 256 * ByteVal(s[1..])
  }

  lemma {:induction false} ByteValAppend(s: seq<Byte>, t: seq<Byte>)
    ensures ByteVal(s + t) == ByteVal(s) + Pow2(8 * |s|) * ByteVal(t)
  {
    if s == [] {
      assert s + t == t;
    } else {
      ByteValAppend(s[1..], t);
      assert (s + t)[1..] == s[1..] + t;
      Pow2Of8();
      Pow2Add(8, 8 * |s[1..]|);
      MulAssociative(256, Pow2(8 * |s[1..]|), ByteVal(t));
    }
  }

  lemma {:induction false} ByteValBound(s: seq<Byte>)
    ensures ByteVal(s) < Pow2(8 * |s|)
  {
    hide Pow2;
    if s == [] {
      Pow2Zero();
    } else {
      ByteValBound(s[1..]);
      Pow2Of8();
      Pow2Add(8, 8 * |s[1..]|);
    }
  }

  function DigitBytes(d: nat, n: nat): (s: seq<Byte>)
    ensures |s| == n
  {
    if n == 0 then [] else [d % 256] + DigitBytes(d / 256, n - 1)
  }

  lemma {:induction false} DigitBytesVal(d: nat, n: nat)
    requires d < Pow2(8 * n)
    ensures ByteVal(DigitBytes(d, n)) == d
  {
    if n == 0 {
      Pow2Zero();
    } else {
      assert d / 256 < Pow2(8 * (n - 1)) by {
        hide Pow2;
        Pow2Of8();
        Pow2Add(8, 8 * (n - 1));
      }
      DigitBytesVal(d / 256, n - 1);
      assert DigitBytes(d, n)[1..] == DigitBytes(d / 256, n - 1);
    }
  }

  /** The memory image of a digit sequence. */
  function ToBytes(s: seq<Digit>): (t: seq<Byte>)
    ensures |t| == DIGIT_SIZE * |s|
  {
    if s == [] then [] else DigitBytes(s[0], DIGIT_SIZE) + ToBytes(s[1..])
  }

  lemma {:induction false} ToBytesVal(s: seq<Digit>)
    ensures ByteVal(ToBytes(s)) == Val(s)
  {
    if s != [] {
      ToBytesVal(s[1..]);
      BaseIsPow2();
      DigitBytesVal(s[0], DIGIT_SIZE);
      hide Pow2;
      ByteValAppend(DigitBytes(s[0], DIGIT_SIZE), ToBytes(s[1..]));
    }
  }

  /** The digits of a memory image. */
  function FromBytes(t: seq<Byte>): (s: seq<Digit>)
    requires |t| % DIGIT_SIZE == 0
    ensures |t| == DIGIT_SIZE * |s|
  {
    if t == [] then []
    else
      ByteValBound(t[..DIGIT_SIZE]);
      BaseIsPow2();
      [ByteVal(t[..DIGIT_SIZE])] + FromBytes(t[DIGIT_SIZE..])
  }

  lemma {:induction false} FromBytesVal(t: seq<Byte>)
    requires |t| % DIGIT_SIZE == 0
    ensures Val(FromBytes(t)) == ByteVal(t)
  {
    if t != [] {
      FromBytesVal(t[DIGIT_SIZE..]);
      BaseIsPow2();
      hide Pow2;
      ByteValAppend(t[..DIGIT_SIZE], t[DIGIT_SIZE..]);
      assert t[..DIGIT_SIZE] + t[DIGIT_SIZE..] == t;
    }
  }

  lemma {:induction false} ZeroBytesVal(s: seq<Byte>)
    requires forall i :: 0 <= i < |s| ==> s[i] == 0
    ensures ByteVal(s) == 0
  {
    if s != [] { ZeroBytesVal(s[1..]); }
  }

  /** Low zero bytes make low zero digits. */
  lemma {:induction false} FromBytesZeros(t: seq<Byte>, k: nat)
    requires |t| % DIGIT_SIZE == 0 && DIGIT_SIZE * k <= |t|
    requires forall i :: 0 <= i < DIGIT_SIZE * k ==> t[i] == 0
    ensures AllZero(FromBytes(t)[..k])
  {
    if k > 0 {
      ZeroBytesVal(t[..DIGIT_SIZE]);
      FromBytesZeros(t[DIGIT_SIZE..], k - 1);
      var s := FromBytes(t);
      assert s[1..] == FromBytes(t[DIGIT_SIZE..]);
      forall i | 0 <= i < k ensures s[i] == 0 {
        if i > 0 { assert s[i] == s[1..][..k - 1][i - 1]; }
      }
    }
  }

  /** memmove up by `bytes` and clear the bytes below. */
  method MoveUp(a: array<Digit>, count: nat, bytes: nat)
    requires count <= a.Length && bytes <= DIGIT_SIZE * count
    modifies a
    ensures Val(a[..count]) == Pow2(8 * bytes) * old(Val(a[..count])) % BP(count)
    ensures AllZero(a[..bytes / DIGIT_SIZE])
    ensures SameOutside(a[..], old(a[..]), 0, count)
  {
    ghost var s := a[..count];
    var t := ToBytes(a[..count]);
    var keep := DIGIT_SIZE * count - bytes;
    var moved := FromBytes(Zeros(bytes) + t[..keep]);
    forall k | 0 <= k < count { a[k] := moved[k]; }
    assert a[..count] == moved;
    MovedUpVal(s, bytes);
    FromBytesZeros(Zeros(bytes) + t[..keep], bytes / DIGIT_SIZE);
    assert a[..bytes / DIGIT_SIZE] == moved[..bytes / DIGIT_SIZE];
  }

  lemma MovedUpVal(s: seq<Digit>, bytes: nat)
    requires bytes <= DIGIT_SIZE * |s|
    ensures Val(FromBytes(Zeros(bytes) + ToBytes(s)[..DIGIT_SIZE * |s| - bytes])) == Pow2(8 * bytes) * Val(s) % BP(|s|)
  {
    hide Pow2, BP, Val, ByteVal;
    var t := ToBytes(s);
    var keep := |t| - bytes;
    FromBytesVal(Zeros(bytes) + t[..keep]);
    ByteValAppend(Zeros(bytes), t[..keep]);
    ZeroBytesVal(Zeros(bytes));
    BytesSplit(s, keep);
    BPIsPow2(|s|);
    Pow2Add(8 * bytes, 8 * keep);
    var p, q, low, high := Pow2(8 * bytes), Pow2(8 * keep), ByteVal(t[..keep]), ByteVal(t[keep..]);
    assert p * (low + q * high) == high * (p * q) + p * low by {
      Distribute(p, low, q * high);
      MulAssociative(p, q, high);
    }
    MulMono(p, low + 1, q);
    Distribute(p, low, 1);
    DivModUnique(p * Val(s), p * q, high, p * low);
  }

  /** memmove down by `bytes` and clear the bytes above. */
  method MoveDown(a: array<Digit>, count: nat, bytes: nat)
    requires count <= a.Length && bytes <= DIGIT_SIZE * count
    modifies a
    ensures Val(a[..count]) == old(Val(a[..count])) / Pow2(8 * bytes)
    ensures SameOutside(a[..], old(a[..]), 0, count)
  {
    ghost var s := a[..count];
    var t := ToBytes(a[..count]);
    var moved := FromBytes(t[bytes..] + Zeros(bytes));
    forall k | 0 <= k < count { a[k] := moved[k]; }
    assert a[..count] == moved;
    MovedDownVal(s, bytes);
  }

  lemma DropLow(low: nat, p: nat, high: nat)
    requires low < p
    ensures (low + p * high) / p == high
  {
    DivModUnique(low + p * high, p, high, low);
  }

  lemma BytesSplit(s: seq<Digit>, bytes: nat)
    requires bytes <= DIGIT_SIZE * |s|
    ensures Val(s) == ByteVal(ToBytes(s)[..bytes]) + Pow2(8 * bytes) * ByteVal(ToBytes(s)[bytes..])
    ensures ByteVal(ToBytes(s)[..bytes]) < Pow2(8 * bytes)
  {
    hide Pow2, Val, ByteVal, ToBytes;
    var t := ToBytes(s);
    ToBytesVal(s);
    ByteValAppend(t[..bytes], t[bytes..]);
    assert t == t[..bytes] + t[bytes..];
    ByteValBound(t[..bytes]);
  }

  lemma ZerosOnTop(t: seq<Byte>, n: nat)
    ensures ByteVal(t + Zeros(n)) == ByteVal(t)
  {
    hide Pow2, ByteVal;
    ByteValAppend(t, Zeros(n));
    ZeroBytesVal(Zeros(n));
  }

  lemma MovedDownVal(s: seq<Digit>, bytes: nat)
    requires bytes <= DIGIT_SIZE * |s|
    ensures Val(FromBytes(ToBytes(s)[bytes..] + Zeros(bytes))) == Val(s) / Pow2(8 * bytes)
  {
    hide Pow2, Val, ByteVal, ToBytes, FromBytes, Zeros;
    var t := ToBytes(s);
    FromBytesVal(t[bytes..] + Zeros(bytes));
    ZerosOnTop(t[bytes..], bytes);
    BytesSplit(s, bytes);
    DropLow(ByteVal(t[..bytes]), Pow2(8 * bytes), ByteVal(t[bytes..]));
  }

  // ----- shifts by less than a digit -----

  /** `d << bits`, the bits beyond the digit being lost. */
  function Shl(d: Digit, bits: nat): Digit { d * Pow2(bits) % B }

  /** `d >> bits`. */
  function Shr(d: nat, bits: nat): nat
  {
    DivNat(d, Pow2(bits));
    d / Pow2(bits)
  }

  lemma ShrBound(d: Digit, bits: nat)
    ensures d / Pow2(bits) <= d && Shr(d, bits) <= d
  {
    if d / Pow2(bits) > d {
      MulMono(d / Pow2(bits), 1, Pow2(bits));
    }
  }

  /** Shifting left by bits within p * q == B, where p == Pow2(bits). */
  lemma ShlParts(d: nat, p: nat, q: nat)
    requires p > 0 && q > 0 && p * q == B && d < B
    ensures d * p == (d / q) * B + p * (d % q)
    ensures p * (d % q) + p <= B
    ensures d * p / B == d / q && d * p % B == p * (d % q)
    ensures d / q < p
  {
    var hi, lo := d / q, d % q;
    assert d == hi * q + lo;
    Distribute(p, hi * q, lo);
    assert p * (hi * q) == hi * (p * q);
    MulMono(p, lo + 1, q);
    Distribute(p, lo, 1);
    DivModUnique(d * p, B, hi, p * lo);
    DivLess(d, p, q);
  }

  lemma DigitParts(bits: nat)
    requires bits <= W
    ensures Pow2(bits) * Pow2(W - bits) == B
  {
    BaseIsPow2();
    Pow2Add(bits, W - bits);
  }

  /** One digit of a left shift: `(tm << bits) | crr` (the two parts have no bit in common) and the
      bits shifted out. */
  lemma ShlStep(tm: Digit, bits: nat, crr: nat)
    requires bits < W && crr < Pow2(bits)
    ensures Shl(tm, bits) + crr < B
    ensures tm * Pow2(bits) + crr == (Shl(tm, bits) + crr) + B * Shr(tm, W - bits)
    ensures Shr(tm, W - bits) < Pow2(bits)
  {
    hide Pow2;
    DigitParts(bits);
    ShlParts(tm, Pow2(bits), Pow2(W - bits));
  }

  /** The shifting loop of bn_digits_l_shift, from digit `from` on; the digits below it are zero. */
  method ShlLoop(a: array<Digit>, count: nat, from: nat, bits: nat)
    requires from <= count <= a.Length && 0 < bits < W && AllZero(a[..from])
    modifies a
    ensures Val(a[..count]) == Pow2(bits) * old(Val(a[..count])) % BP(count)
    ensures SameOutside(a[..], old(a[..]), 0, count)
  {
    hide BP, Val, Carried, Shl, Shr, Pow2, Mul;
    ghost var s, k := a[..count], Pow2(bits) - 1;
    ghost var r := s;
    assert s[..from] == a[..from];
    ValZero(s[..from]);
    ShlStart(s, from, k);
    var i: nat, crr: nat := from, 0;
    while i < count
      invariant from <= i <= count && crr < Pow2(bits)
      invariant SameOutside(a[..], old(a[..]), 0, count)
      invariant |r| == count && forall j :: 0 <= j < count ==> a[j] == r[j]
      invariant forall j :: i <= j < count ==> r[j] == s[j]
      invariant Carried(r, s, i, Mul(k, Val(s[..i])), crr)
    {
      var tm := a[i];
      ShlStep(tm, bits, crr);
      ShrBound(tm, W - bits);
      MulPrefixStep(s, i, k);
      MulNext(tm, k);
      MulLaw(tm, k);
      ghost var out := Shr(tm, W - bits);
      CarryNext(r, s, i, Mul(k, Val(s[..i])), crr, Mul(k, tm), Shl(tm, bits) + crr, out);
      a[i] := Shl(tm, bits) + crr;
      r := r[i := Shl(tm, bits) + crr];
      crr := Shr(tm, W - bits);
      i := i + 1;
    }
    assert s[..count] == s && a[..count] == r;
    CarryAll(r, s, Mul(k, Val(s)), crr);
    ShlEnd(r, s, k, crr);
  }

  lemma ShlEnd(r: seq<Digit>, s: seq<Digit>, k: nat, crr: nat)
    requires |r| == |s| && Val(r) + BP(|s|) * crr == Val(s) + Mul(k, Val(s))
    ensures Val(r) == (k + 1) * Val(s) % BP(|s|)
  {
    hide BP, Val;
    Distribute(Val(s), k, 1);
    ValBound(r);
    DivModUnique((k + 1) * Val(s), BP(|s|), crr, Val(r));
  }

  /** tm * (k + 1) and k * tm in one form. */
  lemma MulLaw(tm: int, k: int)
    ensures Mul(tm, k + 1) == tm * (k + 1) && Mul(tm, k) == Mul(k, tm)
  {}

  lemma MulPrefixStep(t: seq<Digit>, i: nat, k: int)
    requires i < |t|
    ensures Mul(k, Val(t[..i])) + BP(i) * Mul(k, t[i]) == Mul(k, Val(t[..i + 1]))
  {
    MultipleStep(t, i, k);
  }

  lemma ShlStart(s: seq<Digit>, from: nat, k: int)
    requires from <= |s| && Val(s[..from]) == 0
    ensures Carried(s, s, from, Mul(k, Val(s[..from])), 0)
  {}

  /** One digit of a right shift: `(x >> bits) | (y << (W - bits))`. */
  lemma ShrStep(x: Digit, y: Digit, bits: nat)
    requires 0 < bits < W
    ensures Shr(x, bits) + Shl(y, W - bits) < B
    ensures Pow2(bits) * (Shr(x, bits) + Shl(y, W - bits)) + x % Pow2(bits) == x + B * (y % Pow2(bits))
  {
    hide Pow2;
    var p, q := Pow2(bits), Pow2(W - bits);
    DigitParts(bits);
    ShlParts(y, q, p);
    assert Shl(y, W - bits) == q * (y % p);
    DivLess(x, q, p);
    Distribute(p, x / p, q * (y % p));
    MulAssociative(p, q, y % p);
  }

  /** The low i digits of r are those of s shifted right; p is the weight of the shift. */
  predicate Shifted(r: seq<Digit>, s: seq<Digit>, i: nat, p: nat, next: nat)
    requires p > 0 && s != [] && i <= |r| && i <= |s|
  {
    p * Val(r[..i]) + s[0] % p == Val(s[..i]) + BP(i) * next
  }

  /** The shifting loop of bn_digits_r_shift over the low `count` digits. */
  method ShrLoop(a: array<Digit>, count: nat, bits: nat)
    requires 0 < count <= a.Length && 0 < bits < W
    modifies a
    ensures Val(a[..count]) == old(Val(a[..count])) / Pow2(bits)
    ensures SameOutside(a[..], old(a[..]), 0, count)
  {
    hide BP, Val, Shl, Shr, Pow2, Shifted;
    ghost var s, p := a[..count], Pow2(bits);
    ghost var r := s;
    var i := 0;
    ShrStart(s, p);
    while i < count - 1
      invariant 0 <= i < count
      invariant SameOutside(a[..], old(a[..]), 0, count)
      invariant |r| == count && forall j :: 0 <= j < count ==> a[j] == r[j]
      invariant forall j :: i <= j < count ==> r[j] == s[j]
      invariant Shifted(r, s, i, p, s[i] % p)
    {
      ShrStep(a[i], a[i + 1], bits);
      ghost var y := Shr(a[i], bits) + Shl(a[i + 1], W - bits);
      ShrPrefix(r, s, i, p, y, s[i + 1] % p);
      a[i] := Shr(a[i], bits) + Shl(a[i + 1], W - bits);
      r := r[i := y];
      i := i + 1;
    }
    ShrStep(a[i], 0, bits);
    ShlZero(bits);
    ghost var y := Shr(a[i], bits);
    ShrPrefix(r, s, i, p, y, 0);
    a[i] := Shr(a[i], bits);
    r := r[i := y];
    assert a[..count] == r;
    ShrEnd(r, s, p);
  }

  lemma ShrEnd(r: seq<Digit>, s: seq<Digit>, p: nat)
    requires p > 0 && s != [] && |r| == |s| && Shifted(r, s, |s|, p, 0)
    ensures Val(r) == Val(s) / p
  {
    assert r[..|s|] == r && s[..|s|] == s;
    DivModUnique(Val(s), p, Val(r), s[0] % p);
  }

  lemma ShlZero(bits: nat)
    requires 0 < bits < W
    ensures Shl(0, W - bits) == 0 && (0 as Digit) % Pow2(bits) == 0
  {}

  lemma ShrStart(s: seq<Digit>, p: nat)
    requires s != [] && p > 0
    ensures Shifted(s, s, 0, p, s[0] % p)
  {}

  lemma ShrPrefix(r: seq<Digit>, s: seq<Digit>, i: nat, p: nat, y: Digit, next: nat)
    requires |r| == |s| && i < |s| && p > 0 && Shifted(r, s, i, p, s[i] % p)
    requires p * y + s[i] % p == s[i] + B * next
    ensures Shifted(r[i := y], s, i + 1, p, next)
  {
    hide BP, Val;
    var r' := r[i := y];
    ValPrefixStep(r', i);
    assert r'[..i] == r[..i];
    ValPrefixStep(s, i);
    BPStep(i);
    ShrAlgebra(BP(i), p, y, s[i] % p, s[i], next);
    Distribute(p, Val(r[..i]), BP(i) * y);
  }

  lemma ShrAlgebra(q: int, p: int, y: int, m: int, x: int, next: int)
    requires p * y + m == x + B * next
    ensures p * (q * y) + q * m == q * x + (B * q) * next
  {
    Distribute(q, p * y, m);
    Distribute(q, x, B * next);
    assert p * (q * y) == q * (p * y);
    assert (B * q) * next == q * (B * next);
  }

  // ----- the two entry points -----

  /** bn_digits_l_shift. */
  method DigitsLShift(a: array<Digit>, count: nat, bits: nat)
    requires count <= a.Length && bits <= W * count
    modifies a
    ensures Val(a[..count]) == Pow2(bits) * old(Val(a[..count])) % BP(count)
    ensures SameOutside(a[..], old(a[..]), 0, count)
  {
    hide Val, BP, Pow2;
    ValBound(a[..count]);
    Pow2Zero();
    if count == 0 || bits == 0 { SmallMod(Val(a[..count]), BP(count)); return; }
    var rest, from := bits, 0;
    if bits % 8 == 0 || W < bits {
      var bytes := bits / 8;
      MoveUp(a, count, bytes);
      if bits % 8 == 0 { return; }
      rest, from := bits - bytes * 8, bytes / DIGIT_SIZE;
      ghost var v := Val(a[..count]);
      ShlLoop(a, count, from, rest);
      TwoShifts(old(Val(a[..count])), v, Val(a[..count]), 8 * bytes, rest, BP(count));
      return;
    }
    ShlLoop(a, count, 0, bits);
  }

  lemma SmallMod(v: nat, m: nat)
    requires v < m
    ensures v % m == v
  {}

  lemma TwoShifts(u: nat, v: nat, w: nat, i: nat, j: nat, m: nat)
    requires m > 0 && v == Pow2(i) * u % m && w == Pow2(j) * v % m
    ensures w == Pow2(i + j) * u % m
  {
    hide Pow2;
    Pow2Add(i, j);
    var p, q := Pow2(i), Pow2(j);
    var k := p * u / m;
    assert p * u == m * k + v;
    assert (p * q) * u == q * v + (q * k) * m by {
      assert (p * q) * u == q * (p * u);
      Distribute(q, m * k, v);
      assert q * (m * k) == (q * k) * m;
    }
    ModAddMultiple(q * v, q * k, m);
  }

  /** bn_digits_r_shift. */
  method DigitsRShift(a: array<Digit>, count: nat, bits: nat)
    requires count <= a.Length && bits <= W * count
    modifies a
    ensures Val(a[..count]) == old(Val(a[..count])) / Pow2(bits)
    ensures SameOutside(a[..], old(a[..]), 0, count)
  {
    hide Val, BP, Pow2;
    Pow2Zero();
    if count == 0 || bits == 0 { return; }
    if bits % 8 == 0 || W < bits {
      var bytes := bits / 8;
      ghost var u := Val(a[..count]);
      ValBound(a[..count]);
      MoveDown(a, count, bytes);
      if bits % 8 == 0 { return; }
      var rest, live := bits - bytes * 8, count - bytes / DIGIT_SIZE;
      TopCleared(u, count, bytes);
      ValSmall(a[..count], live);
      ValTrim(a[..count], live);
      assert a[..count][..live] == a[..live];
      ghost var top := a[..count][live..];
      Pow2Add(8 * bytes, rest);
      DivDiv(u, Pow2(8 * bytes), Pow2(rest));
      ShrLoop(a, live, rest);
      assert a[..count][live..] == top;
      ValTrim(a[..count], live);
      assert a[..count][..live] == a[..live];
      return;
    }
    ShrLoop(a, count, bits);
  }

  lemma TopCleared(u: nat, count: nat, bytes: nat)
    requires u < BP(count) && bytes <= DIGIT_SIZE * count
    ensures u / Pow2(8 * bytes) < BP(count - bytes / DIGIT_SIZE)
  {
    hide Pow2, BP;
    var k := bytes / DIGIT_SIZE;
    BPIsPow2(k);
    Pow2Monotonic(W * k, 8 * bytes);
    BPAdd(count - k, k);
    MulMono(BP(count - k), BP(k), Pow2(8 * bytes));
    DivLess(u, BP(count - k), Pow2(8 * bytes));
  }
}
