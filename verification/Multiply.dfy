/** bn_mult of include/math/big_num.h: schoolbook multiplication. */
module Multiply {
  import opened Common
  import opened Numbers
  import opened Digits
  import opened Bits
  import opened BigNum

  lemma ProductFits(x: nat, y: nat, i: nat, j: nat)
    requires x < BP(i) && y < BP(j)
    ensures x * y < BP(i + j)
  {
    hide BP;
    BPAdd(i, j);
    MulMono(x, y, BP(j));
    MulMono(BP(j), x + 1, BP(i));
    Distribute(BP(j), x, 1);
  }

  /** One row of the product: nothing is carried out of the `digits` digits. */
  lemma RowStep(r: seq<Digit>, s: seq<Digit>, t: seq<Digit>, j: nat, m: nat, k: nat, lost: nat)
    requires |r| == |s| == k + |t| && j < |t| && m < BP(k)
    requires r[..j] == s[..j]
    requires Val(s) == m * Val(t[..j])
    requires Val(r[j..]) + BP(|s| - j) * lost == Val(s[j..]) + t[j] * m
    ensures Val(r) == m * Val(t[..j + 1]) && lost == 0
  {
    hide BP, Val;
    ValSplit(r, j);
    ValSplit(s, j);
    BPAdd(j, |s| - j);
    TailAlgebra(BP(j), BP(|s| - j), Val(s[j..]), Val(r[j..]), t[j] * m, lost);
    MultipleStep(t, j, m);
    assert BP(j) * (t[j] * m) == BP(j) * (m * t[j]);
    assert Val(r) + BP(|s|) * lost == m * Val(t[..j + 1]);
    ValBound(t[..j + 1]);
    ProductFits(m, Val(t[..j + 1]), k, j + 1);
    BPMonotonic(k + j + 1, |s|);
    if lost > 0 { MulMono(BP(|s|), 1, lost); }
  }

  lemma UnchangedBelow(s: seq<Digit>, t: seq<Digit>, lo: nat, hi: nat)
    requires SameOutside(s, t, lo, hi) && lo <= |s|
    ensures s[..lo] == t[..lo]
  {}

  /** The row loop: a becomes the product of b and c. */
  method MultRows(a: array<Digit>, b: array<Digit>, bCount: nat, c: array<Digit>, cCount: nat)
    requires a != b && a != c && bCount <= b.Length && cCount <= c.Length && bCount + cCount <= a.Length
    requires forall i :: 0 <= i < bCount + cCount ==> a[i] == 0
    modifies a
    ensures Val(a[..bCount + cCount]) == Val(b[..bCount]) * Val(c[..cCount])
  {
    hide BP, Val, SameOutside;
    var digits := bCount + cCount;
    ghost var m, t := Val(b[..bCount]), c[..cCount];
    ValZero(a[..digits]);
    ValZero(t[..0]);
    var j := 0;
    while j < cCount
      invariant 0 <= j <= cCount
      invariant b[..bCount] == old(b[..bCount]) && c[..cCount] == t
      invariant Val(a[..digits]) == m * Val(t[..j])
    {
      ghost var s, all := a[..digits], a[..];
      if c[j] != 0 {
        ghost var lost := AddDigitMult(a, j, digits - j, b, bCount, c[j]);
        ghost var r := a[..digits];
        assert r[j..] == a[j..digits];
        assert r[..j] == s[..j] by { UnchangedBelow(a[..], all, j, digits); }
        ValBound(b[..bCount]);
        RowStep(r, s, t, j, m, bCount, lost);
      } else {
        MultipleStep(t, j, m);
      }
      j := j + 1;
    }
    assert t[..cCount] == t;
  }

  /** bn_mult: bn *= n, also for bn == n. */
  method Mult(bn: Bn, n: Bn) returns (status: Status)
    requires bn.Valid() && n.Valid() && (bn == n || bn.Apart(n))
    modifies bn`digits, bn.num
    ensures bn.Valid()
    ensures status == if old(bn.V() != 0 && n.V() != 0 && bn.digits + n.digits > bn.count) then EOVERFLOW else Ok
    ensures status.Ok? ==> bn.V() == old(bn.V()) * old(n.V()) && bn.digits <= old(bn.digits + n.digits)
    ensures !status.Ok? ==> bn.V() == old(bn.V())
  {
    hide BP, Val, SameOutside;
    bn.Bounds();
    n.Bounds();
    if bn.IsZero() || n.IsZero() {
      bn.AssignZero();
      return Ok;
    }
    var digits := bn.digits + n.digits;
    if digits > bn.count { return EOVERFLOW; }
    var tmp := new Bn();
    tmp.AssignInit(bn);
    var multiplicand, multiplier := tmp, tmp;
    if bn != n {
      var c := tmp.Cmp(n);
      if c > 0 {
        multiplier := n;
      } else {
        multiplicand := n;
      }
    }
    MultInto(bn, multiplicand, multiplier);
    MulCommutes(tmp.V(), n.V());
    return Ok;
  }

  /** The calculation of bn_mult: bn becomes b * c. */
  method MultInto(bn: Bn, b: Bn, c: Bn)
    requires bn.Valid() && b.Valid() && c.Valid() && bn.Apart(b) && bn.Apart(c) && b.digits + c.digits <= bn.count
    modifies bn`digits, bn.num
    ensures bn.Valid() && bn.V() == b.V() * c.V() && bn.digits <= b.digits + c.digits
  {
    hide BP, Val, SameOutside;
    var digits := b.digits + c.digits;
    bn.AssignZero();
    bn.InitDigits(digits);
    MultRows(bn.num, b.num, b.digits, c.num, c.digits);
    bn.UpdateDigits(digits);
  }
}
