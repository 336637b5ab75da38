/** The double multiplications ad * a + bd * b of include/math/elliptic_curve.h, over any abelian
    group: the joint sparse form and interleaved non-adjacent forms. */
module TwinMult {
  import opened Common
  import opened Numbers
  import opened Digits
  import opened Bits
  import opened BigNum
  import opened Naf
  import opened Jsf
  import opened Groups

  /** BN_BIT_LEN. */
  const BIT_LEN: nat := 2048

  /** EP_DEPTH and EP_WIDTH. */
  const NAF_WIDTH: nat := 4

  lemma SignedTail(s: seq<int>, i: nat)
    requires i < |s|
    ensures SignedVal(s[i..]) == s[i] + 2 * SignedVal(s[i + 1..])
  {
    assert s[i..][1..] == s[i + 1..];
  }

  // ----- joint sparse form -----

  /** The four points b, a, a + b, a - b. */
  ghost predicate JointTable<G>(g: Group<G>, t: seq<G>, a: G, b: G)
  {
    && |t| == 4
    && t[0] == Lin(g, 0, a, 1, b) && t[1] == Lin(g, 1, a, 0, b)
    && t[2] == Lin(g, 1, a, 1, b) && t[3] == Lin(g, 1, a, -1, b)
  }

  lemma FillJoint<G(!new)>(g: Group<G>, a: G, b: G)
    requires Abelian(g)
    ensures JointTable(g, [b, a, Add(g, a, b), Sub(g, a, b)], a, b)
  {
    hide Abelian, Add, Neg, Scale, Lin;
    LinUnits(g, a, b);
    LinNeg(g, 0, 1, a, b);
    LinAdd(g, 1, 0, 0, 1, a, b);
    LinAdd(g, 1, 0, 0, -1, a, b);
  }

  /** The index into the table: twice the digit of a and the digit of b, where opposite digits select
      the last point. */
  function JointIndex(u: int, v: int): int
  {
    var idx := u * 2 + v;
    if u != 0 && u == -v then (if idx < 0 then -4 else 4) else idx
  }

  /** One turn of the main loop. */
  method JointStep<G(!new)>(g: Group<G>, tbl: array<G>, res: G, u: int, v: int, ghost a: G, ghost b: G,
                            ghost k: int, ghost l: int) returns (r: G)
    requires Abelian(g) && JointTable(g, tbl[..], a, b) && -1 <= u <= 1 && -1 <= v <= 1
    requires res == Lin(g, k, a, l, b)
    ensures r == Lin(g, u + 2 * k, a, v + 2 * l, b)
  {
    hide Abelian, Add, Neg, Scale, Lin;
    LinAdd(g, k, l, k, l, a, b);
    LinAdd(g, k + k, l + l, u, v, a, b);
    LinNeg(g, -u, -v, a, b);
    r := Add(g, res, res);
    var idx := JointIndex(u, v);
    if idx == 0 { return; }
    if idx < 0 {
      r := Sub(g, r, tbl[..][-idx - 1]);
    } else {
      r := Add(g, r, tbl[..][idx - 1]);
    }
  }

  /** ec_point_affine_joint_twin_mult. The scratch objects are those of bn_calc_jsf; where its loop leaves the
      array, `ended` is false. */
  method JointTwinMult<G(!new)>(g: Group<G>, a: G, ad: Bn, b: G, bd: Bn, tmA: Bn, tmB: Bn)
    returns (status: Status, res: G, ended: bool)
    requires Abelian(g) && ad.Valid() && bd.Valid()
    requires tmA.num.Length == MAX_DIGITS && tmB.num.Length == MAX_DIGITS && tmA.Apart(tmB)
    requires ad.Apart(tmA) && ad.Apart(tmB) && bd.Apart(tmA) && bd.Apart(tmB)
    modifies tmA, tmA.num, tmB, tmB.num
    ensures status == if BIT_LEN < 2 * (Max(BitLen(ad.V()), BitLen(bd.V())) + 1) then EOVERFLOW else Ok
    ensures status.Ok? && (ad.V() == 0 <==> bd.V() == 0) ==> ended && res == Lin(g, ad.V(), a, bd.V(), b)
    ensures status.Ok? && Harmless(ad.V(), bd.V(), old(Words(Stale(ad, tmA), Stale(bd, tmB)))) ==>
      ended && res == Lin(g, ad.V(), a, bd.V(), b)
    ensures status.Ok? ==> Combined(g, a, ad.V(), b, bd.V(), old(Words(Stale(ad, tmA), Stale(bd, tmB))), ended, res)
  {
    hide Abelian, Add, Neg, Scale, Lin, BP, Val, BitLen, SignedVal, Stale, Us, Vs, Over, After;
    var tbl := new G[4](_ => a);
    tbl[0] := b;
    tbl[1] := a;
    tbl[2] := Add(g, a, b);
    tbl[3] := Sub(g, a, b);
    FillJoint(g, a, b);
    assert tbl[..] == [b, a, Add(g, a, b), Sub(g, a, b)];
    var jsf := new int[BIT_LEN];
    var len, offset;
    ghost var w := Words(Stale(ad, tmA), Stale(bd, tmB));
    status, len, offset, ended := CalcJsf(ad, bd, BIT_LEN, jsf, tmA, tmB);
    res := g.zero;
    if !status.Ok? || !ended { return; }
    assert Stops(Start(ad.V(), bd.V()), w, len);
    res := JointLoop(g, tbl, jsf, len, offset, a, b);
  }

  /** The result is what the digits stand for that bn_calc_jsf writes beside the given stale words. */
  ghost predicate Combined<G(!new)>(g: Group<G>, a: G, ad: nat, b: G, bd: nat, w: Words, ended: bool, res: G)
  {
    ended ==>
      exists n: nat ::
        && Stops(Start(ad, bd), w, n)
        && res == Lin(g, SignedVal(Us(Start(ad, bd), w, n)), a, SignedVal(Vs(Start(ad, bd), w, n)), b)
  }

  /** Zero times a plus one times b, beside the stale word 1, is a + b. */
  lemma WrongPointAt<G(!new)>(g: Group<G>, a: G, b: G, res: G)
    requires Abelian(g) && Combined(g, a, 0, b, 1, Words(1, 0), true, res)
    ensures res == Add(g, a, b)
  {
    hide Abelian, Add, Lin, Us, Vs, SignedVal, Stops;
    var c, w := Start(0, 1), Words(1, 0);
    WrongSumAt(w);
    var n: nat :| Stops(c, w, n) && res == Lin(g, SignedVal(Us(c, w, n)), a, SignedVal(Vs(c, w, n)), b);
    StopsOnce(c, w, 1, n);
    LinUnits(g, a, b);
    LinAdd(g, 1, 0, 0, 1, a, b);
  }

  /** The main loop, over the columns from the highest down. */
  method JointLoop<G(!new)>(g: Group<G>, tbl: array<G>, jsf: array<int>, len: nat, offset: nat,
                            ghost a: G, ghost b: G) returns (res: G)
    requires len <= offset && 2 * offset <= jsf.Length
    requires JsfDigits(jsf[..len]) && JsfDigits(jsf[offset..offset + len])
    requires Abelian(g) && JointTable(g, tbl[..], a, b)
    ensures res == Lin(g, SignedVal(jsf[..len]), a, SignedVal(jsf[offset..offset + len]), b)
  {
    hide Abelian, Add, Neg, Scale, Lin, SignedVal, JointTable;
    ghost var s, t := jsf[..len], jsf[offset..offset + len];
    res := g.zero;
    LinUnits(g, a, b);
    SignedValEmpty();
    assert s[len..] == [] && t[len..] == [];
    var i := len;
    while i > 0
      invariant 0 <= i <= len
      invariant res == Lin(g, SignedVal(s[i..]), a, SignedVal(t[i..]), b)
    {
      i := i - 1;
      SignedTail(s, i);
      SignedTail(t, i);
      res := JointStep(g, tbl, res, jsf[i], jsf[i + offset], a, b, SignedVal(s[i + 1..]), SignedVal(t[i + 1..]));
    }
    assert s[0..] == s && t[0..] == t;
  }

  // ----- interleaved non-adjacent forms -----

  /** The odd multiples 1p, 3p, 5p, ... */
  ghost predicate OddTable<G>(g: Group<G>, t: seq<G>, n: nat, p: G)
  {
    n <= |t| && forall i :: 0 <= i < n ==> t[i] == Scale(g, 2 * i + 1, p)
  }

  /** ec_point_proj_inter_twin_mult_precalc_affine. */
  method OddPrecompute<G(!new)>(g: Group<G>, point: G, wndBits: nat, tbl: array<G>) returns (status: Status)
    requires Abelian(g) && (wndBits >= 2 ==> Pow2(wndBits - 2) <= tbl.Length)
    modifies tbl
    ensures status == if 2 > wndBits then EINVAL else Ok
    ensures status.Ok? ==> OddTable(g, tbl[..], Pow2(wndBits - 2), point)
  {
    hide Abelian, Add, Neg, Scale, Pow2;
    if 2 > wndBits { return EINVAL; }
    ScaleSmall(g, point);
    if wndBits > 2 {
      var n := Pow2(wndBits - 2);
      Pow2Monotonic(1, wndBits - 2);
      Pow2One();
      ScaleAdd(g, 1, 1, point);
      tbl[0] := Add(g, point, point);
      ScaleAdd(g, 1, 2, point);
      tbl[1] := Add(g, point, tbl[0]);
      for i := 2 to n
        invariant tbl[0] == Scale(g, 2, point)
        invariant forall k :: 1 <= k < i ==> tbl[k] == Scale(g, 2 * k + 1, point)
      {
        ScaleAdd(g, 2 * i - 1, 2, point);
        tbl[i] := Add(g, tbl[i - 1], tbl[0]);
      }
    } else {
      Pow2Zero();
    }
    tbl[0] := point;
    return Ok;
  }

  /** Adding the entry of one nonzero digit, or subtracting that of its negative. */
  method AddDigitPoint<G(!new)>(g: Group<G>, tbl: array<G>, point: G, d: int, ghost p: G) returns (r: G)
    requires Abelian(g) && OddTable(g, tbl[..], 4, p) && (d == 0 || (d % 2 == 1 && -8 < d < 8))
    ensures r == Add(g, point, Scale(g, d, p))
  {
    hide Abelian, Add, Neg, Scale;
    r := point;
    if d == 0 {
      ScaleSmall(g, p);
      Zero(g, point);
    } else if d > 0 {
      assert 2 * (d / 2) + 1 == d;
      r := Add(g, r, tbl[..][d / 2]);
    } else {
      assert 2 * (-d / 2) + 1 == -d;
      ScaleNeg(g, -d, p);
      r := Sub(g, r, tbl[..][-d / 2]);
    }
  }

  /** The number that bn_calc_naf recodes: bn, or bn less its storage when rounding up overflows it. */
  ghost function Recoding(bn: Bn): int
    requires bn.Shape()
    reads bn, bn.num
  {
    bn.V() - (if Wraps(bn.V(), BP(bn.count), NAF_WIDTH) then BP(bn.count) else 0)
  }

  /** ec_point_proj_inter_twin_mult_affine. */
  method InterTwinMult<G(!new)>(g: Group<G>, a: G, ad: Bn, b: G, bd: Bn) returns (status: Status, res: G)
    requires Abelian(g) && ad.Valid() && bd.Valid()
    ensures status == if BIT_LEN / 2 < Max(BitLen(ad.V()), BitLen(bd.V())) + 1 then EOVERFLOW else Ok
    ensures status.Ok? ==> res == Lin(g, Recoding(ad), a, Recoding(bd), b)
    ensures status.Ok? && !Wraps(ad.V(), BP(ad.count), NAF_WIDTH) && !Wraps(bd.V(), BP(bd.count), NAF_WIDTH)
      ==> res == Lin(g, ad.V(), a, bd.V(), b)
  {
    hide Abelian, Add, Neg, Scale, Lin, BP, Val, BitLen, SignedVal, Wraps, NafDigits, NonAdjacent, Pow2, OddTable;
    FourEntries();
    res := g.zero;
    var tbl0 := new G[4](_ => a);
    var tbl1 := new G[4](_ => b);
    status := OddPrecompute(g, a, NAF_WIDTH, tbl0);
    status := OddPrecompute(g, b, NAF_WIDTH, tbl1);
    ghost var t0, t1 := tbl0[..], tbl1[..];
    var naf0 := new int[BIT_LEN / 2];
    var naf1 := new int[BIT_LEN / 2];
    var cnt0, cnt1;
    status, cnt0 := CalcNaf(ad, NAF_WIDTH, BIT_LEN / 2, naf0);
    if !status.Ok? { return; }
    ghost var s0 := naf0[..];
    status, cnt1 := CalcNaf(bd, NAF_WIDTH, BIT_LEN / 2, naf1);
    if !status.Ok? { return; }
    assert naf0[..] == s0 && tbl0[..] == t0 && tbl1[..] == t1;
    var n := Max(cnt0, cnt1);
    Padded(naf0[..], cnt0, n);
    Padded(naf1[..], cnt1, n);
    res := InterLoop(g, tbl0, tbl1, naf0, naf1, n, a, b);
  }

  lemma FourEntries()
    ensures Pow2(NAF_WIDTH - 2) == 4 && Pow2(NAF_WIDTH - 1) == 8
  {
    assert Pow2(1) == 2 && Pow2(2) == 4 && Pow2(3) == 8;
  }

  /** Zeros above the digits of one form change nothing. */
  lemma Padded(s: seq<int>, cnt: nat, n: nat)
    requires cnt <= n <= |s| && NafDigits(s[..cnt], NAF_WIDTH) && forall k :: cnt <= k < |s| ==> s[k] == 0
    ensures SignedVal(s[..n]) == SignedVal(s[..cnt]) && NafDigits(s[..n], NAF_WIDTH)
  {
    hide Pow2, SignedVal;
    SignedValZeros(s[..n], cnt);
    assert s[..n][..cnt] == s[..cnt];
    forall i | 0 <= i < n ensures NafDigit(s[..n][i], NAF_WIDTH) {
      if i < cnt { assert s[..cnt][i] == s[i]; }
    }
  }

  /** The main loop over both digit strings, from the highest digits down. */
  method InterLoop<G(!new)>(g: Group<G>, tbl0: array<G>, tbl1: array<G>, naf0: array<int>, naf1: array<int>, n: nat,
                            ghost a: G, ghost b: G) returns (res: G)
    requires Abelian(g) && OddTable(g, tbl0[..], 4, a) && OddTable(g, tbl1[..], 4, b)
    requires n <= naf0.Length && n <= naf1.Length
    requires NafDigits(naf0[..n], NAF_WIDTH) && NafDigits(naf1[..n], NAF_WIDTH)
    ensures res == Lin(g, SignedVal(naf0[..n]), a, SignedVal(naf1[..n]), b)
  {
    hide Abelian, Add, Neg, Scale, Lin, SignedVal, OddTable, Pow2;
    FourEntries();
    ghost var s, t := naf0[..n], naf1[..n];
    res := g.zero;
    LinUnits(g, a, b);
    SignedValEmpty();
    assert s[n..] == [] && t[n..] == [];
    var i := n;
    while i > 0
      invariant 0 <= i <= n
      invariant res == Lin(g, SignedVal(s[i..]), a, SignedVal(t[i..]), b)
    {
      i := i - 1;
      SignedTail(s, i);
      SignedTail(t, i);
      assert NafDigit(s[i], NAF_WIDTH) && NafDigit(t[i], NAF_WIDTH);
      ghost var k, l := SignedVal(s[i + 1..]), SignedVal(t[i + 1..]);
      LinAdd(g, k, l, k, l, a, b);
      res := Add(g, res, res);
      InterSum(g, k + k, l + l, s[i], t[i], a, b);
      res := AddDigitPoint(g, tbl0, res, naf0[i], a);
      res := AddDigitPoint(g, tbl1, res, naf1[i], b);
    }
    assert s[0..] == s && t[0..] == t;
  }

  lemma InterSum<G(!new)>(g: Group<G>, k: int, l: int, u: int, v: int, a: G, b: G)
    requires Abelian(g)
    ensures Add(g, Add(g, Lin(g, k, a, l, b), Scale(g, u, a)), Scale(g, v, b)) == Lin(g, k + u, a, l + v, b)
  {
    hide Abelian, Add, Neg, Scale, Lin;
    LinParts(g, u, a, b);
    LinParts(g, v, a, b);
    LinAdd(g, k, l, u, 0, a, b);
    LinAdd(g, k + u, l, 0, v, a, b);
  }
}
