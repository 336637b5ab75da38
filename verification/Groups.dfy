/** An abelian group passed as a value, and its integer multiples. */
module Groups {

  datatype Group<!G> = Group(zero: G, add: (G, G) -> G, neg: G -> G)

  function Add<G>(g: Group<G>, x: G, y: G): G { g.add(x, y) }

  function Neg<G>(g: Group<G>, x: G): G { g.neg(x) }

  function Sub<G>(g: Group<G>, x: G, y: G): G { Add(g, x, Neg(g, y)) }

  ghost predicate Neutral<G(!new)>(g: Group<G>) { forall x :: Add(g, g.zero, x) == x }

  ghost predicate Commutes<G(!new)>(g: Group<G>) { forall x, y :: Add(g, x, y) == Add(g, y, x) }

  ghost predicate Associates<G(!new)>(g: Group<G>)
  {
    forall x, y, z :: Add(g, Add(g, x, y), z) == Add(g, x, Add(g, y, z))
  }

  ghost predicate Inverts<G(!new)>(g: Group<G>) { forall x :: Add(g, x, Neg(g, x)) == g.zero }

  /** The laws the curve points are known to satisfy. */
  ghost predicate Abelian<G(!new)>(g: Group<G>)
  {
    Neutral(g) && Commutes(g) && Associates(g) && Inverts(g)
  }

  lemma Zero<G(!new)>(g: Group<G>, x: G)
    requires Abelian(g)
    ensures Add(g, g.zero, x) == x && Add(g, x, g.zero) == x
  {
    hide Associates, Inverts;
  }

  lemma Comm<G(!new)>(g: Group<G>, x: G, y: G)
    requires Abelian(g)
    ensures Add(g, x, y) == Add(g, y, x)
  {
    hide Associates, Inverts, Neutral;
  }

  lemma Assoc<G(!new)>(g: Group<G>, x: G, y: G, z: G)
    requires Abelian(g)
    ensures Add(g, Add(g, x, y), z) == Add(g, x, Add(g, y, z))
  {
    hide Commutes, Inverts, Neutral;
  }

  lemma Inverse<G(!new)>(g: Group<G>, x: G)
    requires Abelian(g)
    ensures Add(g, x, Neg(g, x)) == g.zero && Add(g, Neg(g, x), x) == g.zero
  {
    hide Associates, Neutral;
  }

  /** Only the inverse of x completes x to zero. */
  lemma InverseUnique<G(!new)>(g: Group<G>, x: G, y: G)
    requires Abelian(g) && Add(g, x, y) == g.zero
    ensures y == Neg(g, x)
  {
    hide Abelian, Add, Neg;
    Inverse(g, x);
    Assoc(g, Neg(g, x), x, y);
    Zero(g, y);
    Zero(g, Neg(g, x));
  }

  lemma Exchange<G(!new)>(g: Group<G>, x: G, y: G, z: G, w: G)
    requires Abelian(g)
    ensures Add(g, Add(g, x, y), Add(g, z, w)) == Add(g, Add(g, x, z), Add(g, y, w))
  {
    hide Abelian, Add, Neg;
    Assoc(g, x, y, Add(g, z, w));
    Assoc(g, y, z, w);
    Comm(g, y, z);
    Assoc(g, z, y, w);
    Assoc(g, x, z, Add(g, y, w));
  }

  lemma NegSum<G(!new)>(g: Group<G>, x: G, y: G)
    requires Abelian(g)
    ensures Neg(g, Add(g, x, y)) == Add(g, Neg(g, x), Neg(g, y))
  {
    hide Abelian, Add, Neg;
    Exchange(g, x, y, Neg(g, x), Neg(g, y));
    Inverse(g, x);
    Inverse(g, y);
    Zero(g, g.zero);
    InverseUnique(g, Add(g, x, y), Add(g, Neg(g, x), Neg(g, y)));
  }

  lemma NegNeg<G(!new)>(g: Group<G>, x: G)
    requires Abelian(g)
    ensures Neg(g, Neg(g, x)) == x && Neg(g, g.zero) == g.zero
  {
    hide Abelian, Add, Neg;
    Inverse(g, x);
    InverseUnique(g, Neg(g, x), x);
    Zero(g, g.zero);
    InverseUnique(g, g.zero, g.zero);
  }

  // ----- multiples -----

  /** p added k times. */
  function Times<G>(g: Group<G>, k: nat, p: G): G
  {
    if k == 0 then g.zero else Add(g, Times(g, k - 1, p), p)
  }

  /** k times p for any integer k. */
  function Scale<G>(g: Group<G>, k: int, p: G): G
  {
    if k >= 0 then Times(g, k, p) else Neg(g, Times(g, -k, p))
  }

  lemma ScaleSmall<G(!new)>(g: Group<G>, p: G)
    requires Abelian(g)
    ensures Scale(g, 0, p) == g.zero && Scale(g, 1, p) == p
  {
    hide Abelian, Add, Neg;
    Zero(g, p);
    assert Times(g, 1, p) == Add(g, Times(g, 0, p), p);
  }

  lemma ScaleNext<G(!new)>(g: Group<G>, k: int, p: G)
    requires Abelian(g)
    ensures Scale(g, k + 1, p) == Add(g, Scale(g, k, p), p)
  {
    hide Abelian, Add, Neg;
    if k < 0 {
      var m := -k;
      var t := Times(g, m - 1, p);
      NegSum(g, t, p);
      Assoc(g, Neg(g, t), Neg(g, p), p);
      Inverse(g, p);
      Zero(g, Neg(g, t));
      NegNeg(g, p);
    }
  }

  lemma ScalePrev<G(!new)>(g: Group<G>, k: int, p: G)
    requires Abelian(g)
    ensures Scale(g, k - 1, p) == Add(g, Scale(g, k, p), Neg(g, p))
  {
    hide Abelian, Add, Neg, Scale;
    ScaleNext(g, k - 1, p);
    Assoc(g, Scale(g, k - 1, p), p, Neg(g, p));
    Inverse(g, p);
    Zero(g, Scale(g, k - 1, p));
  }

  /** Multiples add up. */
  lemma {:induction false} ScaleAdd<G(!new)>(g: Group<G>, i: int, j: int, p: G)
    requires Abelian(g)
    ensures Scale(g, i + j, p) == Add(g, Scale(g, i, p), Scale(g, j, p))
    decreases if j >= 0 then j else -j
  {
    hide Abelian, Add, Neg, Scale;
    if j == 0 {
      ScaleSmall(g, p);
      Zero(g, Scale(g, i, p));
    } else if j > 0 {
      ScaleAdd(g, i, j - 1, p);
      ScaleNext(g, i + j - 1, p);
      ScaleNext(g, j - 1, p);
      Assoc(g, Scale(g, i, p), Scale(g, j - 1, p), p);
    } else {
      ScaleAdd(g, i, j + 1, p);
      ScalePrev(g, i + j + 1, p);
      ScalePrev(g, j + 1, p);
      Assoc(g, Scale(g, i, p), Scale(g, j + 1, p), Neg(g, p));
    }
  }

  lemma ScaleNeg<G(!new)>(g: Group<G>, k: int, p: G)
    requires Abelian(g)
    ensures Scale(g, -k, p) == Neg(g, Scale(g, k, p))
  {
    hide Abelian, Add, Neg, Scale;
    ScaleAdd(g, k, -k, p);
    ScaleSmall(g, p);
    InverseUnique(g, Scale(g, k, p), Scale(g, -k, p));
  }

  lemma {:induction false} TimesOfZero<G(!new)>(g: Group<G>, k: nat)
    requires Abelian(g)
    ensures Scale(g, k, g.zero) == g.zero
  {
    hide Abelian, Add, Neg;
    if k > 0 {
      TimesOfZero(g, k - 1);
      Zero(g, g.zero);
    }
  }

  // ----- combinations of two points -----

  function Lin<G>(g: Group<G>, i: int, p: G, j: int, q: G): G
  {
    Add(g, Scale(g, i, p), Scale(g, j, q))
  }

  lemma LinAdd<G(!new)>(g: Group<G>, i: int, j: int, i': int, j': int, p: G, q: G)
    requires Abelian(g)
    ensures Add(g, Lin(g, i, p, j, q), Lin(g, i', p, j', q)) == Lin(g, i + i', p, j + j', q)
  {
    hide Abelian, Add, Neg, Scale;
    ScaleAdd(g, i, i', p);
    ScaleAdd(g, j, j', q);
    Exchange(g, Scale(g, i, p), Scale(g, j, q), Scale(g, i', p), Scale(g, j', q));
  }

  lemma LinNeg<G(!new)>(g: Group<G>, i: int, j: int, p: G, q: G)
    requires Abelian(g)
    ensures Neg(g, Lin(g, i, p, j, q)) == Lin(g, -i, p, -j, q)
  {
    hide Abelian, Add, Neg, Scale;
    ScaleNeg(g, i, p);
    ScaleNeg(g, j, q);
    NegSum(g, Scale(g, i, p), Scale(g, j, q));
  }

  lemma LinParts<G(!new)>(g: Group<G>, k: int, p: G, q: G)
    requires Abelian(g)
    ensures Lin(g, k, p, 0, q) == Scale(g, k, p) && Lin(g, 0, p, k, q) == Scale(g, k, q)
  {
    hide Abelian, Add, Neg, Scale;
    ScaleSmall(g, p);
    ScaleSmall(g, q);
    Zero(g, Scale(g, k, p));
    Zero(g, Scale(g, k, q));
  }

  lemma LinUnits<G(!new)>(g: Group<G>, p: G, q: G)
    requires Abelian(g)
    ensures Lin(g, 0, p, 0, q) == g.zero && Lin(g, 1, p, 0, q) == p && Lin(g, 0, p, 1, q) == q
  {
    hide Abelian, Add, Neg, Scale;
    ScaleSmall(g, p);
    ScaleSmall(g, q);
    LinParts(g, 1, p, q);
    Zero(g, g.zero);
  }
}
