/** bn_sqrt3 of include/math/big_num.h: the abacus square root. */
module SquareRoot {
  import opened Common
  import opened Numbers
  import opened Digits
  import opened Shifts
  import opened Bits
  import opened BigNum

  /** r is the square root of x rounded down. */
  predicate FloorRoot(r: nat, x: nat)
  {
    r * r <= x < (r + 1) * (r + 1)
  }

  lemma FloorRootUnique(r: nat, s: nat, x: nat)
    requires FloorRoot(r, x) && FloorRoot(s, x)
    ensures r == s
  {
    if r < s { Squares(r + 1, s); }
    if s < r { Squares(s + 1, r); }
  }

  lemma Squares(a: nat, b: nat)
    requires a <= b
    ensures a * a <= b * b
  {
    MulMono(a, a, b);
    MulMono(b, a, b);
  }

  /** The state before bit position 2k - 2 is tried: root holds the bits of the square root from k on,
      the number left is what x exceeds root squared by, and res is root shifted left by k. */
  predicate Abacus(x: nat, left: int, res: int, root: nat, k: nat)
  {
    && root % Pow2(k) == 0
    && left == x - root * root && left >= 0
    && res == root * Pow2(k)
    && x < (root + Pow2(k)) * (root + Pow2(k))
  }

  /** Trying the bit of weight p (position k - 1 of the root): the test `left >= res + p*p` accepts it
      exactly when the grown root still fits. */
  lemma AbacusStep(x: nat, left: int, res: int, root: nat, k: nat)
    requires k > 0 && Abacus(x, left, res, root, k)
    ensures var p := Pow2(k - 1);
      && (left >= res + p * p ==> Abacus(x, left - (res + p * p), res / 2 + p * p, root + p, k - 1))
      && (left < res + p * p ==> Abacus(x, left, res / 2, root, k - 1))
  {
    hide Pow2;
    var p, q := Pow2(k - 1), Pow2(k);
    Pow2Add(1, k - 1);
    Pow2One();
    ExactQuotient(root, q);
    var t := root / q;
    assert root == p * (2 * t) by { assert q * t == p * (2 * t); }
    assert root + p == p * (2 * t + 1) by { Distribute(p, 2 * t, 1); }
    ExactMultiple(root, p, 2 * t);
    ExactMultiple(root + p, p, 2 * t + 1);
    assert res == 2 * (root * p) by { assert root * (2 * p) == 2 * (root * p); }
    assert (root + p) * (root + p) == root * root + 2 * (root * p) + p * p;
    Distribute(p, root, p);
    assert root + p + p == root + q;
  }

  /** The bit written into res or tmp is clear there. */
  lemma BitClear(res: nat, root: nat, k: nat)
    requires k > 0 && root % Pow2(k) == 0 && res == root * Pow2(k)
    ensures Bit(res, 2 * k - 2) == 0 && Bit(res / 2, 2 * k - 2) == 0
    ensures Pow2(2 * k - 2) == Pow2(k - 1) * Pow2(k - 1)
  {
    hide Pow2;
    var p, q := Pow2(k - 1), Pow2(k);
    Pow2Add(k - 1, k - 1);
    Pow2Add(1, k - 1);
    Pow2One();
    ExactQuotient(root, q);
    var t := root / q;
    assert res == (p * p) * (4 * t) by { assert q * t * q == (p * p) * (4 * t); }
    ExactMultiple(res, p * p, 4 * t);
    assert res / 2 == (p * p) * (2 * t) by { assert (p * p) * (4 * t) == 2 * ((p * p) * (2 * t)); }
    ExactMultiple(res / 2, p * p, 2 * t);
  }

  lemma AbacusStart(x: nat, k: nat)
    requires x < Pow2(2 * k)
    ensures Abacus(x, x, 0, 0, k)
  {
    Pow2Add(k, k);
    assert (0 as nat) % Pow2(k) == 0;
  }

  lemma AbacusEnd(x: nat, left: int, res: int, root: nat)
    requires Abacus(x, left, res, root, 0)
    ensures res == root && FloorRoot(root, x) && left == x - root * root
  {}

  /** One turn of the loop of bn_sqrt3. */
  method Turn(bn: Bn, res: Bn, tmp: Bn, bit: nat, ghost x: nat, ghost root: nat, ghost k: nat)
    returns (status: Status, ghost root': nat)
    requires bn.Valid() && res.Valid() && tmp.Shape() && bn.Apart(res) && bn.Apart(tmp) && res.Apart(tmp)
    requires bn.count == res.count == tmp.count && k > 0 && bit == 2 * k - 2
    requires Abacus(x, bn.V(), res.V(), root, k)
    modifies bn`digits, bn.num, res`digits, res.num, tmp`digits, tmp.num
    ensures status == if bit / W < bn.count then Ok else EOVERFLOW
    ensures bn.Valid() && res.Valid() && tmp.Shape()
    ensures status.Ok? ==> Abacus(x, bn.V(), res.V(), root', k - 1)
    ensures !status.Ok? ==> bn.V() == old(bn.V())
  {
    hide Pow2, BP, Val, Abacus, Bit;
    root' := root;
    ghost var left, r := bn.V(), res.V();
    AbacusParts(x, left, r, root, k);
    BitClear(r, root, k);
    AbacusStep(x, left, r, root, k);
    Pow2One();
    status := TrialNumber(tmp, res, bit);
    if !status.Ok? { return; }
    res.RShift(1);
    var c := bn.Cmp(tmp);
    if c >= 0 {
      root' := root + Pow2(k - 1);
      SubtractTrial(bn, tmp);
      status := SetClear(res, bit);
    }
  }

  /** Setting a bit that is clear adds its weight. */
  method SetClear(bn: Bn, bit: nat) returns (status: Status)
    requires bn.Shape() && Bit(bn.V(), bit) == 0
    modifies bn`digits, bn.num
    ensures status == if bit / W < bn.count then Ok else EOVERFLOW
    ensures bn.Shape() && (status.Ok? ==> bn.Valid() && bn.V() == old(bn.V()) + Pow2(bit))
  {
    hide Pow2, BP, Val, Bit;
    status := bn.BitSet(bit, true);
  }

  /** tmp is res with one more bit. */
  method TrialNumber(tmp: Bn, res: Bn, bit: nat) returns (status: Status)
    requires tmp.Shape() && res.Valid() && tmp.Apart(res) && tmp.count == res.count && Bit(res.V(), bit) == 0
    modifies tmp`digits, tmp.num
    ensures status == if bit / W < tmp.count then Ok else EOVERFLOW
    ensures tmp.Shape() && (status.Ok? ==> tmp.Valid() && tmp.V() == res.V() + Pow2(bit))
  {
    hide Pow2, BP, Val, Bit;
    status := tmp.Assign(res);
    status := SetClear(tmp, bit);
  }

  lemma AbacusParts(x: nat, left: int, res: int, root: nat, k: nat)
    requires Abacus(x, left, res, root, k)
    ensures root % Pow2(k) == 0 && res == root * Pow2(k)
  {}

  method SubtractTrial(bn: Bn, tmp: Bn)
    requires bn.Valid() && tmp.Valid() && bn.Apart(tmp) && bn.V() >= tmp.V() && tmp.count == bn.count
    modifies bn`digits, bn.num
    ensures bn.Valid() && bn.V() == old(bn.V()) - tmp.V()
  {
    hide BP, Val;
    ghost var a, c := bn.V(), tmp.V();
    var status, borrow := bn.Sub(tmp);
    bn.Below();
    if borrow > 0 { MulMono(BP(bn.count), 1, borrow); }
  }

  /** bn_sqrt3. It fails exactly when the top bit of the storage is set. */
  method Sqrt3(bn: Bn) returns (status: Status)
    requires bn.Valid()
    modifies bn`digits, bn.num
    ensures bn.Valid()
    ensures status == if old(bn.V()) < Pow2(W * bn.count - 1) then Ok else EOVERFLOW
    ensures status.Ok? ==> FloorRoot(bn.V(), old(bn.V()))
    ensures !status.Ok? ==> bn.V() == old(bn.V())
  {
    hide Pow2, BP, Val, Abacus, FloorRoot;
    bn.Bounds();
    ghost var x := bn.V();
    var bits := bn.count * W;
    var bit := FirstBit(bn);
    var res := NewZero(bits);
    var tmp := NewZero(bits);
    status := SqrtLoop(bn, res, tmp, bit, x);
    if !status.Ok? { return; }
    status := bn.Assign(res);
  }

  /** The number of bit positions that are tried from `start` down in steps of two. */
  function Places(start: int): nat { if start < 0 then 0 else start / 2 + 1 }

  /** The first bit position, which is even; for zero it is not above the lowest bit. */
  method FirstBit(bn: Bn) returns (bit: int)
    requires bn.Valid()
    ensures bit % 2 == 0 && (bn.V() < Pow2(W * bn.count - 1) <==> bit / W < bn.count)
    ensures Abacus(bn.V(), bn.V(), 0, 0, Places(bit))
  {
    hide Pow2, BP, Val, Abacus;
    bn.Bounds();
    var free := bn.Clz();
    var len: int := W * bn.count - free;
    bit := if len % 2 == 1 then len - 1 else len;
    if bn.digits > 0 {
      TopBitSet(bn.V(), len, bit, bn.count);
      AbacusStart(bn.V(), bit / 2 + 1);
    } else {
      NoBitsTried(bit, bn.count);
    }
  }

  lemma NoBitsTried(bit: int, count: nat)
    requires bit <= 0 < count
    ensures bit / W < count && 0 < Pow2(W * count - 1) && Abacus(0, 0, 0, 0, Places(bit))
  {
    hide Pow2, Abacus;
    AbacusStart(0, Places(bit));
  }

  lemma TopBitSet(x: nat, len: nat, bit: nat, count: nat)
    requires 0 < len <= W * count && Pow2(len - 1) <= x < Pow2(len)
    requires bit == if len % 2 == 1 then len - 1 else len
    ensures x < Pow2(W * count - 1) <==> bit / W < count
    ensures x < Pow2(bit + 2)
  {
    hide Pow2;
    Pow2Monotonic(len, bit + 2);
    if len < W * count { Pow2Monotonic(len, W * count - 1); }
  }

  method NewZero(bits: nat) returns (x: Bn)
    requires 0 < bits <= W * MAX_DIGITS && bits % W == 0
    ensures fresh(x) && fresh(x.num) && x.Valid() && x.V() == 0 && x.count == bits / W
  {
    x := new Bn();
    var status := x.Init(bits);
  }

  method SqrtLoop(bn: Bn, res: Bn, tmp: Bn, start: int, ghost x: nat) returns (status: Status)
    requires bn.Valid() && res.Valid() && tmp.Shape() && bn.Apart(res) && bn.Apart(tmp) && res.Apart(tmp)
    requires bn.count == res.count == tmp.count && start % 2 == 0
    requires bn.V() == x && Abacus(x, bn.V(), res.V(), 0, Places(start))
    modifies bn`digits, bn.num, res`digits, res.num, tmp`digits, tmp.num
    ensures bn.Valid() && res.Valid()
    ensures status == if start / W < bn.count then Ok else EOVERFLOW
    ensures status.Ok? ==> FloorRoot(res.V(), x) && bn.V() == x - res.V() * res.V()
    ensures !status.Ok? ==> bn.V() == x
  {
    hide Pow2, BP, Val, Abacus, FloorRoot;
    status := Ok;
    var bit := start;
    ghost var root: nat, k: nat := 0, Places(start);
    while bit >= 0
      invariant bit <= start && if bit < 0 then k == 0 else bit == 2 * k - 2
      invariant bn.Valid() && res.Valid() && tmp.Shape()
      invariant Abacus(x, bn.V(), res.V(), root, k)
      invariant status.Ok? && (bit < start ==> start / W < bn.count)
      invariant bit == start ==> bn.V() == x
    {
      status, root := Turn(bn, res, tmp, bit, x, root, k);
      if !status.Ok? { return; }
      bit, k := bit - 2, k - 1;
    }
    AbacusEnd(x, bn.V(), res.V(), root);
  }

  /** The top bit of the storage is set in a number that was zero, and the root is refused. */
  method TopBitAt(bn: Bn) returns (status: Status)
    requires bn.Valid() && bn.V() == 0
    modifies bn`digits, bn.num
    ensures status == EOVERFLOW && bn.Valid() && bn.V() == Pow2(W * bn.count - 1)
  {
    hide Pow2, BP, Val;
    var bit := W * bn.count - 1;
    NoBitOfZero(bit);
    status := bn.BitSet(bit, true);
    status := Sqrt3(bn);
  }

  lemma NoBitOfZero(bit: nat)
    ensures Bit(0, bit) == 0
  {}
}
