/**
  The factor maps of PrimeInteger: a SortedMap<Long, Integer> from prime (or
  probable prime) p to its multiplicity e, held as the list of its entries in
  increasing key order, which is the order entrySet() iterates in.
*/
module FactorMap {
  import opened Numbers

  type Factors = seq<(int, nat)>

  /** Keys strictly increase along the entries. */
  predicate Sorted(F: Factors)
  {
    |F| <= 1 || (F[0].0 < F[1].0 && Sorted(F[1..]))
  }

  function Keys(F: Factors): set<int>
  {
    if |F| == 0 then {} else {F[0].0} + Keys(F[1..])
  }

  /** F.get(q), with 0 for a key that is absent. */
  function Exponent(F: Factors, q: int): nat
  {
    if |F| == 0 then 0 else if F[0].0 == q then F[0].1 else Exponent(F[1..], q)
  }

  /** The number the map stands for: the product of p**e over its entries. */
  function Prod(F: Factors): int
  {
    if |F| == 0 then 1 else Pow(F[0].0, F[0].1) * Prod(F[1..])
  }

  /** Every entry has a positive multiplicity. */
  predicate Positive(F: Factors)
  {
    forall t :: 0 <= t < |F| ==> F[t].1 >= 1
  }

  /** The first key of a sorted map lies below every later key. */
  lemma {:induction false} FirstKeyLeast(F: Factors)
    requires Sorted(F) && |F| > 0
    ensures forall q :: q in Keys(F[1..]) ==> F[0].0 < q
  {
    if |F| > 1 {
      FirstKeyLeast(F[1..]);
      assert F[1..][1..] == F[2..];
    }
  }

  /** Sorted as the order of entrySet(): keys strictly increase with the index. */
  lemma {:induction false} SortedStrict(F: Factors)
    requires Sorted(F)
    ensures forall i, j :: 0 <= i < j < |F| ==> F[i].0 < F[j].0
  {
    if |F| > 1 {
      SortedStrict(F[1..]);
      forall j | 1 <= j < |F|
        ensures F[0].0 < F[j].0
      {
        FirstKeyLeast(F);
        KeyAt(F[1..], j - 1);
      }
    }
  }

  lemma {:induction false} KeyAt(F: Factors, t: int)
    requires 0 <= t < |F|
    ensures F[t].0 in Keys(F)
  {
    if t > 0 {
      KeyAt(F[1..], t - 1);
    }
  }

  /**
    One more factor p: the map after `e = F.get(p); e = e == null ? 1 : e + 1;
    F.put(p, e)`, the update the factorisation routines repeat.
  */
  function AddFactor(F: Factors, p: int): (G: Factors)
    ensures Keys(G) == Keys(F) + {p}
  {
    if |F| == 0 then [(p, 1)]
    else if p < F[0].0 then [(p, 1)] + F
    else if p == F[0].0 then [(p, F[0].1 + 1)] + F[1..]
    else [F[0]] + AddFactor(F[1..], p)
  }

  /** Adding p keeps the keys sorted and adds p to them. */
  lemma {:induction false} AddFactorSorted(F: Factors, p: int)
    requires Sorted(F)
    ensures Sorted(AddFactor(F, p)) && Keys(AddFactor(F, p)) == Keys(F) + {p}
    ensures Positive(F) ==> Positive(AddFactor(F, p))
  {
    var G := AddFactor(F, p);
    if |F| == 0 {
    } else if p < F[0].0 {
      assert G[1..] == F;
    } else if p == F[0].0 {
      assert G[1..] == F[1..];
    } else {
      AddFactorSorted(F[1..], p);
      assert G[1..] == AddFactor(F[1..], p);
      if |F| > 1 {
        assert G[1].0 == F[1].0 || G[1].0 == p;
      }
    }
  }

  /** Adding p raises the multiplicity of p by one and leaves the others. */
  lemma {:induction false} AddFactorExponent(F: Factors, p: int, q: int)
    requires Sorted(F)
    ensures Exponent(AddFactor(F, p), q) == Exponent(F, q) + (if q == p then 1 else 0)
  {
    var G := AddFactor(F, p);
    if |F| == 0 {
      assert G[1..] == [];
    } else if p < F[0].0 {
      assert G[1..] == F;
      if q == p {
        FirstKeyLeast(F);
        AbsentExponent(F, p);
      }
    } else if p == F[0].0 {
      assert G[1..] == F[1..];
    } else {
      AddFactorExponent(F[1..], p, q);
      assert G[1..] == AddFactor(F[1..], p);
    }
  }

  /** A key below every key has no multiplicity. */
  lemma {:induction false} AbsentExponent(F: Factors, p: int)
    requires |F| > 0 && p < F[0].0 && forall q :: q in Keys(F[1..]) ==> F[0].0 < q
    ensures Exponent(F, p) == 0
  {
    if |F| > 1 {
      assert F[1..][1..] == F[2..];
      assert F[1].0 in Keys(F[1..]);
      AbsentBelow(F[1..], p);
    }
  }

  lemma {:induction false} AbsentBelow(F: Factors, p: int)
    requires forall q :: q in Keys(F) ==> p < q
    ensures Exponent(F, p) == 0
  {
    if |F| > 0 {
      assert F[0].0 in Keys(F);
      AbsentBelow(F[1..], p);
    }
  }

  /** Adding the factor p multiplies the product by p. */
  lemma {:induction false} AddFactorProd(F: Factors, p: int)
    ensures Prod(AddFactor(F, p)) == Prod(F) * p
  {
    var G := AddFactor(F, p);
    assert Pow(p, 1) == p * Pow(p, 0) == p;
    if |F| == 0 {
      assert G[1..] == [];
      assert Prod(G) == p * 1;
    } else if p < F[0].0 {
      assert G[1..] == F;
      assert Prod(G) == p * Prod(F);
    } else if p == F[0].0 {
      assert G[1..] == F[1..];
      var e := F[0].1;
      assert Pow(p, e + 1) == p * Pow(p, e);
      ProdStep(p, Pow(p, e), Prod(F[1..]));
    } else {
      AddFactorProd(F[1..], p);
      assert G[1..] == AddFactor(F[1..], p);
      ProdStep(p, Pow(F[0].0, F[0].1), Prod(F[1..]));
    }
  }

  lemma ProdStep(p: int, x: int, y: int)
    ensures (p * x) * y == x * y * p && x * (y * p) == x * y * p
  {
  }

  /** AddFactor with all its facts, for the factorisation routines. */
  lemma AddFactorFacts(F: Factors, p: int)
    requires Sorted(F)
    ensures Sorted(AddFactor(F, p)) && Keys(AddFactor(F, p)) == Keys(F) + {p}
    ensures Positive(F) ==> Positive(AddFactor(F, p))
    ensures Prod(AddFactor(F, p)) == Prod(F) * p
  {
    AddFactorSorted(F, p);
    AddFactorProd(F, p);
  }

  lemma Regroup(f: int, x: int, y: int)
    ensures f * (x * y) == (f * x) * y
  {
  }

  lemma ProdSplit(F: Factors, i: int)
    requires 0 <= i < |F|
    ensures Prod(F[i..]) == Pow(F[i].0, F[i].1) * Prod(F[i + 1..])
  {
    assert F[i..][1..] == F[i + 1..];
  }

  /**
    isFactorization: whether n is the product of p**e over the entries of F.
    The source multiplies in 64-bit arithmetic; this model multiplies exactly.
  */
  method IsFactorization(n: int, F: Factors) returns (r: bool)
    ensures r <==> n == Prod(F)
  {
    var f := 1;
    for i := 0 to |F|
      invariant f * Prod(F[i..]) == Prod(F)
    {
      var p := F[i].0;
      var e := F[i].1;
      var pe := Pow(p, e);
      ProdSplit(F, i);
      Regroup(f, pe, Prod(F[i + 1..]));
      f := f * pe;
    }
    assert F[|F|..] == [];
    return n == f;
  }
}
