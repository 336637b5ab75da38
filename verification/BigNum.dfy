/** The big number object of include/math/big_num.h and its basic operations. */
module BigNum {
  import opened Common
  import opened Numbers
  import opened Digits
  import opened Shifts
  import opened Bits

  /** BN_BIT_LEN / BN_DIGIT_BITS: 2048-bit storage. */
  const MAX_DIGITS: nat := 32

  // ----- single digits -----

  /** bn_digit_ctz. */
  method DigitCtz(digit: Digit) returns (n: nat)
    ensures digit == 0 ==> n == W
    ensures digit != 0 ==> n < W && digit % Pow2(n) == 0 && digit / Pow2(n) % 2 == 1
  {
    hide Pow2;
    if digit == 0 { return W; }
    var reg := digit;
    n := 0;
    Pow2Zero();
    while reg % 2 == 0
      invariant reg > 0 && digit == reg * Pow2(n)
      decreases reg
    {
      Pow2Add(n, 1);
      Pow2One();
      MulAssociative(reg / 2, 2, Pow2(n));
      reg := reg / 2;
      n := n + 1;
    }
    DivModUnique(digit, Pow2(n), reg, 0);
    if n >= W {
      BaseIsPow2();
      Pow2Monotonic(W, n);
      MulMono(Pow2(n), 1, reg);
    }
  }

  lemma ShiftedOut(digit: nat, n: nat)
    requires 0 < digit * Pow2(n) < B
    ensures n < W
  {
    hide Pow2;
    if n >= W {
      BaseIsPow2();
      Pow2Monotonic(W, n);
      MulMono(Pow2(n), 1, digit);
    }
  }

  /** bn_digit_clz. */
  method DigitClz(digit: Digit) returns (n: nat)
    ensures digit == 0 ==> n == W
    ensures digit != 0 ==> n < W && B / 2 <= digit * Pow2(n) < B
  {
    hide Pow2;
    if digit == 0 { return W; }
    var reg: nat := digit;
    n := 0;
    Pow2Zero();
    while reg < B / 2
      invariant 0 < reg == digit * Pow2(n) < B
      decreases B - reg
    {
      Pow2Add(n, 1);
      Pow2One();
      MulAssociative(digit, Pow2(n), 2);
      reg := reg * 2;
      n := n + 1;
    }
    ShiftedOut(digit, n);
  }

  class Bn {
    var count: nat
    var digits: nat
    const num: array<Digit>

    /** A local `bn_t`: nothing but its storage is known. */
    constructor ()
      ensures fresh(num) && num.Length == MAX_DIGITS
    {
      num := new Digit[MAX_DIGITS];
    }

    /** The digits from `digits` on are garbage. */
    ghost predicate Shape()
      reads this
    {
      num.Length == MAX_DIGITS && digits <= count <= MAX_DIGITS && count > 0
    }

    ghost predicate Valid()
      reads this, num
    {
      Shape() && (digits > 0 ==> num[digits - 1] != 0)
    }

    ghost function V(): nat
      requires Shape()
      reads this, num
    {
      Val(num[..digits])
    }

    /** Distinct objects with distinct storage. */
    ghost predicate Apart(b: Bn) { this != b && this.num != b.num }

    // ----- size and tests -----

    lemma Bounds()
      requires Shape()
      ensures V() < BP(digits) <= BP(count)
      ensures Valid() && digits > 0 ==> V() >= BP(digits - 1)
      ensures Valid() ==> (V() == 0 <==> digits == 0)
    {
      hide BP, Val;
      ValBound(num[..digits]);
      BPMonotonic(digits, count);
      ValZero(num[..digits]);
      if digits > 0 && num[digits - 1] != 0 { TopNonZero(num[..digits]); }
    }

    lemma Below()
      requires Shape()
      ensures V() < BP(count)
    {
      ValBound(num[..digits]);
      BPMonotonic(digits, count);
    }

    /** bn_init. */
    method Init(bits: nat) returns (status: Status)
      requires num.Length == MAX_DIGITS
      modifies this`count, this`digits
      ensures status == if 0 < bits <= W * MAX_DIGITS then Ok else EINVAL
      ensures status.Ok? ==> Valid() && V() == 0 && count == (bits + W - 1) / W
    {
      if bits > W * MAX_DIGITS || bits == 0 { return EINVAL; }
      count := (bits + (W - 1)) / W;
      digits := 0;
      return Ok;
    }

    /** No garbage below `count`. */
    ghost predicate Clear()
      reads this, num
    {
      num.Length == MAX_DIGITS && count <= MAX_DIGITS && forall i :: digits <= i < count ==> num[i] == 0
    }

    /** bn_init_digits__int: clear the delayed digits below `digitOff`. */
    method InitDigits(digitOff: nat)
      requires Shape()
      modifies num
      ensures Shape() && V() == old(V())
      ensures forall i :: digits <= i < Min(digitOff, count) ==> num[i] == 0
      ensures digitOff >= count ==> Clear()
      ensures SameOutside(num[..], old(num[..]), digits, Min(digitOff, count))
      ensures forall k :: digits <= k <= Max(digits, Min(digitOff, count)) ==> Val(num[..k]) == V()
    {
      if digitOff > digits {
        var end := Min(digitOff, count);
        for i := digits to end
          invariant forall k :: digits <= k < i ==> num[k] == 0
          invariant SameOutside(num[..], old(num[..]), digits, end)
        {
          num[i] := 0;
        }
        assert num[..digits] == old(num[..digits]);
      }
      forall k | digits <= k <= Max(digits, Min(digitOff, count))
        ensures Val(num[..k]) == V()
      {
        ValTrim(num[..k], digits);
        assert num[..k][..digits] == num[..digits];
      }
    }

    /** The digits that bn_update_digits__int(bn, d) takes into account. */
    ghost function Seen(d: nat): nat
      reads this
    {
      if d >= count then count else Max(digits, d)
    }

    /** bn_update_digits__int. */
    method UpdateDigits(d: nat)
      requires Shape()
      modifies this`digits
      ensures Valid() && V() == Val(num[..old(Seen(d))]) && digits <= old(Seen(d))
      ensures forall i :: digits <= i < old(Seen(d)) ==> num[i] == 0
    {
      hide Val;
      if d >= count {
        digits := CalcDigits(num, count);
      } else if d < digits {
        digits := CalcDigits(num, digits);
      } else if d > digits && num[d - 1] != 0 {
        digits := d;
      } else {
        digits := CalcDigits(num, d);
      }
    }

    /** bn_update_digits__int after a sum over the whole storage: c is the carry lost beyond it, and what
        was above the digits taken into account does not matter. */
    method Settle(d: nat, ghost s: seq<Digit>, ghost v: int, ghost x: int, ghost c: int)
      requires Shape() && |s| == count && Val(s[..Seen(d)]) == v
      requires Val(num[0..count]) + Mul(BP(count), c) == Val(s) + x
      requires Seen(d) < count ==> 0 <= v + x < BP(Seen(d))
      modifies this`digits
      ensures Valid() && V() + Mul(BP(count), c) == v + x
    {
      hide BP, Val, Mul;
      ghost var m := Seen(d);
      assert num[0..count][..m] == num[..m];
      KeepGarbage(s, num[0..count], m, x, c);
      UpdateDigits(d);
    }

    /** bn_calc_bits. */
    method CalcBits() returns (bits: nat)
      requires Shape() && (digits > 0 ==> num[digits - 1] != 0)
      ensures V() == 0 ==> bits == 0
      ensures V() > 0 ==> 0 < bits <= W * digits && Pow2(bits - 1) <= V() < Pow2(bits)
      ensures bits == BitLen(V())
    {
      hide BP, Val, Pow2, BitLen;
      Bounds();
      BitLenZero();
      if digits == 0 { return 0; }
      var n := DigitClz(num[digits - 1]);
      bits := digits * W - n;
      TopBits(num[..digits], n);
      BitLenIs(V(), bits);
    }

    /** bn_clz: the free bits below `count`. For zero the source counts the leading zeros of the word before the
        digits as well; `before` is that unknown word. */
    method Clz() returns (n: nat)
      requires Valid()
      ensures digits > 0 ==> n < W * count && Pow2(W * count - n - 1) <= V() < Pow2(W * count - n)
      ensures digits == 0 ==> W * count <= n <= W * count + W
    {
      var before: nat :| before < B;
      n := DigitClz(if digits == 0 then before else num[digits - 1]);
      if digits > 0 { TopBits(num[..digits], n); }
      n := W * (count - digits) + n;
    }

    /** bn_ctz. */
    method Ctz() returns (cnt: nat)
      requires Valid()
      ensures digits == 0 ==> cnt == 0
      ensures digits > 0 ==> cnt < W * digits && V() % Pow2(cnt) == 0 && V() / Pow2(cnt) % 2 == 1
    {
      cnt := 0;
      if digits == 0 { return; }
      var i := 0;
      while i < digits && num[i] == 0
        invariant 0 <= i <= digits && cnt == W * i
        invariant AllZero(num[..i])
      {
        i, cnt := i + 1, cnt + W;
      }
      var n := DigitCtz(num[i]);
      cnt := cnt + n;
      LowBits(num[..digits], i, n);
    }

    /** bn_is_zero, for any operand. */
    predicate IsZero()
      reads this
    {
      digits == 0
    }

    /** bn_is_one. */
    predicate IsOne()
      reads this, num
      requires Shape()
    {
      digits == 1 && num[0] == 1
    }

    lemma OneIff()
      requires Valid()
      ensures IsOne() <==> V() == 1
    {
      Bounds();
      if digits == 1 { ValOne(num[..1]); }
      if digits > 1 { BPMonotonic(1, digits - 1); }
    }

    /** bn_is_even: never true for zero. */
    predicate IsEven()
      reads this, num
      requires Shape()
      ensures IsEven() == (digits != 0 && V() % 2 == 0)
    {
      digits != 0 && num[0] % 2 == 0
    }

    /** bn_is_odd. */
    predicate IsOdd()
      reads this, num
      requires Shape()
      ensures IsOdd() == (V() % 2 == 1)
    {
      digits != 0 && num[0] % 2 != 0
    }

    /** bn_cmp. */
    method Cmp(b: Bn) returns (r: int)
      requires Valid() && b.Valid()
      ensures r == Sign(V() - b.V())
    {
      hide BP, Val;
      if this == b { return 0; }
      if digits != b.digits {
        if digits > b.digits {
          MoreDigits(num[..digits], b.num[..b.digits]);
          return 1;
        }
        MoreDigits(b.num[..b.digits], num[..digits]);
        return -1;
      }
      assert num[0..0 + digits] == num[..digits];
      r := DigitsCmp(num, 0, b.num, digits);
    }

    // ----- single bits -----

    /** bn_is_bit_set: for a bit of the lowest word it does not look whether that word is in use. */
    method IsBitSet(bit: nat) returns (r: bool)
      requires Shape()
      ensures r <==> Bit(if digits == 0 && bit < W then num[0] else V(), bit) == 1
      ensures (r <==> Bit(V(), bit) == 1) <==> digits > 0 || bit >= W || Bit(num[0], bit) == 0
    {
      NoBit([], bit);
      if W > bit {
        if digits > 0 { BitOf(num[..digits], bit); }
        return num[0] / Pow2(bit) % 2 != 0;
      }
      if digits * W <= bit {
        NoBit(num[..digits], bit);
        return false;
      }
      BitOf(num[..digits], bit);
      return num[bit / W] / Pow2(bit % W) % 2 != 0;
    }

    /** bn_bit_set. */
    method BitSet(bit: nat, val: bool) returns (status: Status)
      requires Shape()
      modifies this`digits, num
      ensures status == if bit / W < count then Ok else EOVERFLOW
      ensures status.Ok? ==> Valid()
      ensures status.Ok? ==> V() == old(V()) + (if val then Pow2(bit) else 0) - Pow2(bit) * Bit(old(V()), bit)
      ensures !status.Ok? ==> Shape() && V() == old(V()) && num[..] == old(num[..]) && digits == old(digits)
    {
      hide Pow2, BP, Val, Bit, BitWritten;
      var idx := bit / W;
      if count <= idx { return EOVERFLOW; }
      InitDigits(idx + 1);
      ghost var n := Max(digits, idx + 1);
      ghost var s := num[..n];
      var k := bit % W;
      BitWrittenVal(s, bit, val);
      num[idx] := BitWritten(num[idx], k, val);
      assert num[..n] == s[idx := num[idx]];
      UpdateDigits(idx + 1);
      return Ok;
    }

    // ----- assignments -----

    /** bn_assign. */
    method Assign(src: Bn) returns (status: Status)
      requires Shape() && src.Shape() && (this == src || Apart(src))
      modifies this`digits, num
      ensures status == if src == this || src.digits <= count then Ok else EOVERFLOW
      ensures status.Ok? ==> Shape() && V() == old(src.V()) && digits == src.digits && (old(src.Valid()) ==> Valid())
      ensures !status.Ok? ==> digits == old(digits) && num[..] == old(num[..])
    {
      if this == src { return Ok; }
      if src.digits > count { return EOVERFLOW; }
      ghost var t := src.num[..src.digits];
      digits := src.digits;
      forall i | 0 <= i < src.digits { num[i] := src.num[i]; }
      assert num[..digits] == t;
      return Ok;
    }

    /** bn_assign_init. */
    method AssignInit(src: Bn)
      requires num.Length == MAX_DIGITS && src.Shape() && (this == src || Apart(src))
      modifies this, num
      ensures Shape() && V() == old(src.V()) && digits == src.digits && count == src.count
      ensures old(src.Valid()) ==> Valid()
      ensures old(src.digits) == 0 ==> num[0] == old(num[0])
    {
      if this == src { return; }
      ghost var t := src.num[..src.digits];
      count, digits := src.count, src.digits;
      forall i | 0 <= i < src.digits { num[i] := src.num[i]; }
      assert num[..digits] == t;
    }

    /** bn_assign_zero. */
    method AssignZero()
      requires num.Length == MAX_DIGITS && 0 < count <= MAX_DIGITS
      modifies this`digits
      ensures Valid() && V() == 0 && digits == 0
    {
      digits := 0;
    }

    /** bn_assign_digit: a zero digit still counts as one digit. */
    method AssignDigit(digit: Digit) returns (status: Status)
      requires num.Length == MAX_DIGITS && count <= MAX_DIGITS
      modifies this`digits, num
      ensures status == if count == 0 then EOVERFLOW else Ok
      ensures status.Ok? ==> Shape() && digits == 1 && num[0] == digit && V() == digit && (digit != 0 ==> Valid())
      ensures !status.Ok? ==> digits == old(digits)
    {
      if count == 0 { return EOVERFLOW; }
      digits := 1;
      num[0] := digit;
      ValSingle(digit);
      assert num[..1] == [digit];
      return Ok;
    }

    // ----- shifts -----

    /** bn_l_shift: bits shifted out of `count` digits are lost. */
    method LShift(bits: nat)
      requires Valid() && (digits > 0 ==> bits <= W * count)
      modifies this`digits, num
      ensures Valid() && V() == Pow2(bits) * old(V()) % BP(count)
      ensures old(Clear()) ==> Clear()
    {
      hide Pow2, BP, Val;
      if digits == 0 { ZeroShifted(bits, BP(count)); return; }
      ValBound(num[..digits]);
      var d := Min(count, digits + 1 + bits / W);
      ghost var clear := Clear();
      InitDigits(d);
      assert clear ==> Clear();
      if d < count { ShiftFits(V(), digits, bits, d, count); }
      ShiftDigits(d, bits, clear);
    }

    /** The shift of the low d digits, which hold the whole number. */
    method ShiftDigits(d: nat, bits: nat, ghost clear: bool)
      requires Shape() && digits <= d <= count && bits <= W * d && Val(num[..d]) == V()
      requires Pow2(bits) * V() % BP(d) == Pow2(bits) * V() % BP(count)
      requires clear ==> Clear()
      modifies this`digits, num
      ensures Valid() && V() == Pow2(bits) * old(V()) % BP(count)
      ensures clear ==> Clear()
    {
      hide Pow2, BP, Val;
      ghost var s := num[..];
      DigitsLShift(num, d, bits);
      assert clear ==> forall i :: d <= i < count ==> num[i] == s[i] == 0;
      UpdateDigits(d);
    }

    /** bn_r_shift. */
    method RShift(bits: nat)
      requires Valid() && (digits > 0 ==> bits <= W * digits)
      modifies this`digits, num
      ensures Valid() && V() == old(V()) / Pow2(bits) && digits <= old(digits)
      ensures old(digits) == 0 ==> num[0] == old(num[0])
      ensures old(digits) > 0 && digits == 0 ==> num[0] == 0
    {
      hide BP, Val, Pow2;
      if digits == 0 { ZeroShift(bits); return; }
      DigitsRShift(num, digits, bits);
      UpdateDigits(digits);
    }

    // ----- addition and subtraction -----

    /** bn_add_digit. */
    method AddDigitTo(n: Digit) returns (carry: Digit)
      requires Shape()
      modifies this`digits, num
      ensures Shape() && carry <= 1 && V() + BP(count) * carry == old(V()) + n
      ensures old(Valid()) || n != 0 ==> Valid()
    {
      hide BP, Val;
      carry := 0;
      if n == 0 { return; }
      var d := digits + 1;
      InitDigits(d);
      ghost var s, v, m := num[0..count], V(), Min(d, count);
      assert s[..m] == num[..m];
      Bounds();
      BPStep(digits);
      carry := AddDigit(num, 0, count, n);
      MulIs(BP(count), carry);
      Settle(d, s, v, n, carry);
    }

    /** bn_add, also for a number added to itself. */
    method Add(n: Bn) returns (status: Status, carry: Digit)
      requires Valid() && n.Valid() && (this == n || Apart(n))
      modifies this`digits, num
      ensures status == if old(n.digits) > count then EOVERFLOW else Ok
      ensures Valid() && carry <= 1
      ensures status.Ok? ==> V() + BP(count) * carry == old(V()) + old(n.V())
      ensures !status.Ok? ==> V() == old(V())
    {
      hide BP, Val;
      var d := Max(digits, n.digits) + 1;
      ValBound(num[..digits]);
      ValBound(n.num[..n.digits]);
      SumFits(V(), n.V(), digits, n.digits);
      ghost var t := n.num[..n.digits];
      InitDigits(d);
      assert n.num[..n.digits] == t;
      status, carry := AddSettled(n, d);
    }

    /** The sum itself, the digits below d being initialized. */
    method AddSettled(n: Bn, d: nat) returns (status: Status, carry: Digit)
      requires Valid() && n.Valid() && (this == n || Apart(n)) && d > digits
      requires Val(num[..Seen(d)]) == V()
      requires d < count ==> V() + n.V() < BP(d)
      modifies this`digits, num
      ensures status == if old(n.digits) > count then EOVERFLOW else Ok
      ensures Valid() && carry <= 1
      ensures status.Ok? ==> V() + BP(count) * carry == old(V()) + old(n.V())
      ensures !status.Ok? ==> V() == old(V())
    {
      hide BP, Val, SameOutside;
      ghost var s, v, x, z := num[0..count], V(), n.V(), num[..];
      assert s[..Seen(d)] == num[..Seen(d)];
      status, carry := DigitsAdd(num, 0, count, n.num, n.digits);
      if !status.Ok? {
        assert num[..digits] == num[..][..digits] == z[..digits];
        return;
      }
      MulIs(BP(count), carry);
      Settle(d, s, v, x, carry);
    }

    /** bn_sub_digit. */
    method SubDigitFrom(n: Digit) returns (borrow: Digit)
      requires Valid()
      modifies this`digits, num
      ensures Valid() && borrow <= 1 && V() - BP(count) * borrow == old(V()) - n
    {
      hide BP, Val;
      borrow := 0;
      if n == 0 { return; }
      var d := digits;
      if d == 0 || (d == 1 && num[0] < n) {
        d := count;
      } else {
        DigitFits(num[..digits], n);
      }
      Bounds();
      InitDigits(d);
      ghost var s, v, m := num[0..count], V(), Min(d, count);
      assert s[..m] == num[..m];
      borrow := SubDigit(num, 0, count, n);
      MulIs(BP(count), -(borrow as int));
      Settle(d, s, v, -(n as int), -(borrow as int));
    }

    /** bn_sub, also of a number from itself. When both operands are zero the source compares the words stored
        before the two digit arrays; `before` is the unknown outcome of that comparison. */
    method Sub(n: Bn) returns (status: Status, borrow: Digit)
      requires Valid() && n.Valid() && (this == n || Apart(n))
      modifies this`digits, num
      ensures status == if old(n.digits) > count then EOVERFLOW else Ok
      ensures Valid() && borrow <= 1
      ensures status.Ok? ==> V() - BP(count) * borrow == old(V()) - old(n.V())
      ensures !status.Ok? ==> V() == old(V())
    {
      hide BP, Val;
      if this == n { digits := 0; }
      var d := digits;
      var before: bool := *;
      Bounds();
      n.Bounds();
      if d < n.digits || (d == n.digits && (if d == 0 then before || this == n else num[d - 1] <= n.num[d - 1])) {
        d := count;
      } else if d > 0 {
        NotBelow(num[..digits], n.num[..n.digits]);
      }
      ghost var t := n.num[..n.digits];
      InitDigits(d);
      assert n.num[..n.digits] == t;
      if n.digits > count { return EOVERFLOW, 0; }
      borrow := SubSettled(n, d);
      status := Ok;
    }

    /** The difference itself, the digits below d being initialized. */
    method SubSettled(n: Bn, d: nat) returns (borrow: Digit)
      requires Valid() && n.Valid() && (Apart(n) || this == n) && d >= digits && n.digits <= count
      requires Val(num[..Seen(d)]) == V()
      requires d < count ==> V() >= n.V() && V() < BP(d)
      modifies this`digits, num
      ensures Valid() && borrow <= 1
      ensures V() - BP(count) * borrow == old(V()) - old(n.V())
    {
      hide BP, Val, SameOutside;
      ghost var s, v, x := num[0..count], V(), n.V();
      assert s[..Seen(d)] == num[..Seen(d)];
      borrow := DigitsSub(num, 0, count, n.num, n.digits);
      MulIs(BP(count), -(borrow as int));
      Settle(d, s, v, -(x as int), -(borrow as int));
    }
  }

  lemma ZeroShift(bits: nat)
    ensures Val([]) == 0 && 0 / Pow2(bits) == 0
  {}

  lemma ZeroShifted(bits: nat, m: nat)
    requires m > 0
    ensures Val([]) == 0 && Pow2(bits) * 0 % m == 0
  {}

  lemma TopNonZero(s: seq<Digit>)
    requires s != [] && s[|s| - 1] != 0
    ensures Val(s) >= BP(|s| - 1)
  {
    hide BP, Val;
    ValTop(s);
    MulMono(BP(|s| - 1), 1, s[|s| - 1]);
  }

  /** More digits make a larger number when the top one is nonzero. */
  lemma MoreDigits(s: seq<Digit>, t: seq<Digit>)
    requires |t| < |s| && s[|s| - 1] != 0
    ensures Val(s) > Val(t)
  {
    hide BP, Val;
    TopNonZero(s);
    ValBound(t);
    BPMonotonic(|t|, |s| - 1);
  }

  lemma BitLenZero()
    ensures BitLen(0) == 0
  {}

  lemma DigitFits(s: seq<Digit>, n: Digit)
    requires s != [] && s[|s| - 1] != 0 && (|s| == 1 ==> s[0] >= n)
    ensures Val(s) >= n
  {
    hide BP, Val;
    if |s| == 1 {
      ValOne(s);
      assert s[..1] == s;
    } else {
      ValTop(s);
      BPStep(0);
      BPMonotonic(1, |s| - 1);
      MulMono(BP(|s| - 1), 1, s[|s| - 1]);
    }
  }

  /** The number is not below a number of fewer digits or of a smaller top digit. */
  lemma NotBelow(s: seq<Digit>, t: seq<Digit>)
    requires s != [] && s[|s| - 1] != 0 && |t| <= |s|
    requires |t| == |s| ==> s[|s| - 1] > t[|t| - 1]
    ensures Val(s) >= Val(t)
  {
    hide BP, Val;
    ValTop(s);
    ValBound(t);
    if |t| < |s| {
      BPMonotonic(|t|, |s| - 1);
      MulMono(BP(|s| - 1), 1, s[|s| - 1]);
    } else {
      ValTop(t);
      MulMono(BP(|s| - 1), t[|t| - 1] + 1, s[|s| - 1]);
    }
  }
}
