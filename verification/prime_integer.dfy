/**
  The driver of PrimeInteger: factors(n), which runs the small, medium and large
  prime divisor searches in turn and certifies cofactors with Selfridge's test,
  and the two tests built on it, isPrime and isPrimeFactorization.  The static
  tables SMPRM and UZ210 are the constants of a PrimeInteger object.
*/
module Factorization {
  import opened Numbers
  import opened Outcomes
  import opened PrimeSieve
  import opened FactorMap
  import opened PrimeSearch
  import opened FermatSearch

  /** IMPDS_MIN: where the medium search starts; SMPRM covers the primes below it. */
  const ImpdsMin: int := 10000

  /** IMPDS_MAX: the least upper end of a medium search. */
  const ImpdsMax: int := 128000

  /** F is a factor map of n: sorted keys of at least 2, positive multiplicities, product n. */
  ghost predicate FactorsOf(F: Factors, n: int)
  {
    Sorted(F) && Positive(F) && (forall q :: q in Keys(F) ==> q >= 2) && Prod(F) == n
  }

  /** The state of factors(n) between searches: F times the cofactor ML is n. */
  ghost predicate Partial(F: Factors, ML: int, n: int)
  {
    Sorted(F) && Positive(F) && (forall q :: q in Keys(F) ==> q >= 2) && ML >= 1 && Prod(F) * ML == n
  }

  /**
    residueListFermat(n) once largePrimeDivisorSearch has sorted and reversed it:
    distinct residues modulo a positive modulus, in decreasing order.
  */
  predicate FermatList(R: (seq<int>, int))
  {
    R.1 >= 1 && StrictlyDecreasing(R.0) && forall t :: 0 <= t < |R.0| ==> 0 <= R.0[t] < R.1
  }

  lemma MulAtLeast(x: int, y: int)
    requires x >= 1 && y >= 1
    ensures x * y >= x && x * y >= y
  {
  }

  /** A power of a base of at least 2 is at least the base, and exceeds it from the square on. */
  lemma PowAtLeastBase(b: int, e: nat)
    requires b >= 2 && e >= 1
    ensures Pow(b, e) >= b && Divides(b, Pow(b, e))
    ensures e >= 2 ==> Pow(b, e) > b
  {
    PowPositive(b, e - 1);
    MulAtLeast(b, Pow(b, e - 1));
    MultipleDivides(b, Pow(b, e - 1));
    if e >= 2 {
      PowPositive(b, e - 2);
      MulAtLeast(b, Pow(b, e - 2));
    }
  }

  /** A map with positive keys stands for a positive number. */
  lemma {:induction false} ProdAtLeastOne(F: Factors)
    requires forall q :: q in Keys(F) ==> q >= 1
    ensures Prod(F) >= 1
  {
    if |F| > 0 {
      assert Keys(F) == {F[0].0} + Keys(F[1..]);
      ProdAtLeastOne(F[1..]);
      PowPositive(F[0].0, F[0].1);
      MulAtLeast(Pow(F[0].0, F[0].1), Prod(F[1..]));
    }
  }

  /** A nonempty map with keys of at least 2 and positive multiplicities stands for at least 2. */
  lemma ProdAtLeastTwo(F: Factors)
    requires |F| > 0 && Positive(F) && forall q :: q in Keys(F) ==> q >= 2
    ensures Prod(F) >= Pow(F[0].0, F[0].1) >= 2
  {
    assert Keys(F) == {F[0].0} + Keys(F[1..]);
    ProdAtLeastOne(F[1..]);
    PowAtLeastBase(F[0].0, F[0].1);
    MulAtLeast(Pow(F[0].0, F[0].1), Prod(F[1..]));
  }

  /** The only factor map of 1 is the empty one. */
  lemma FactorsOfOne(F: Factors)
    requires FactorsOf(F, 1)
    ensures F == []
  {
    if |F| > 0 {
      ProdAtLeastTwo(F);
    }
  }

  /** The only factor map of a prime p is {p: 1}. */
  lemma FactorsOfPrime(F: Factors, n: int)
    requires FactorsOf(F, n) && IsPrime(n)
    ensures F == [(n, 1)]
  {
    if |F| == 0 {
      assert false;
    }
    var k, e := F[0].0, F[0].1;
    var a, b := Pow(k, e), Prod(F[1..]);
    assert Keys(F) == {k} + Keys(F[1..]);
    ProdAtLeastOne(F[1..]);
    PowAtLeastBase(k, e);
    MultipleDivides(a, b);
    PrimeDivisors(n, a);
    assert b == 1;
    if |F| > 1 {
      assert Positive(F[1..]);
      ProdAtLeastTwo(F[1..]);
    }
    if e >= 2 {
      DividesTrans(k, a, n);
      PrimeDivisors(n, k);
    }
    assert F == [F[0]];
  }

  /** Putting a factor p of the cofactor into F keeps the state and shrinks the cofactor. */
  lemma PutFactor(F: Factors, ML: int, n: int, p: int)
    requires Partial(F, ML, n) && p >= 2 && ML % p == 0
    ensures Partial(AddFactor(F, p), ML / p, n) && ML / p < ML
  {
    AddFactorFacts(F, p);
    QuotientSmaller(ML, p);
    Assoc(Prod(F), p, ML / p);
  }

  lemma QuotientSmaller(ML: int, p: int)
    requires ML >= 1 && p >= 2 && ML % p == 0
    ensures ML == p * (ML / p) && 1 <= ML / p < ML
  {
    var q := ML / p;
    assert ML == p * q;
    MulAwayFromZero(p, q);
    MulLe(q, 2, p);
  }

  /** Putting the whole cofactor into F completes the factor map. */
  /** What smallPrimeDivisors returns for n and the empty map is a partial factorisation. */
  lemma StartPartial(n: int, ML: int, F: Factors)
    requires ML >= 1 && Sorted(F) && (Positive([]) ==> Positive(F))
    requires Prod(F) * ML == Prod([]) * n
    requires forall q :: q in Keys(F) ==> q in Keys([]) || IsPrime(q)
    ensures Partial(F, ML, n)
  {
    forall q | q in Keys(F) ensures q >= 2 {
      assert IsPrime(q);
    }
  }

  /** A partial factorisation with cofactor 1 is complete. */
  lemma PartialDone(F: Factors, ML: int, n: int)
    requires Partial(F, ML, n) && ML == 1
    ensures FactorsOf(F, n)
  {
  }

  lemma PutLast(F: Factors, ML: int, n: int)
    requires Partial(F, ML, n) && ML >= 2
    ensures FactorsOf(AddFactor(F, ML), n)
  {
    AddFactorFacts(F, ML);
  }

  /** The cofactor is at most n. */
  lemma CofactorBound(F: Factors, ML: int, n: int)
    requires Partial(F, ML, n)
    ensures ML <= n
  {
    ProdAtLeastOne(F);
    MulAtLeast(Prod(F), ML);
  }

  /** A table of every prime from 2 below hi, in increasing order, is a prime table. */
  lemma TableOfPrimes(po: seq<int>, hi: int)
    requires hi >= 3 && StrictlyIncreasing(po)
    requires forall x :: x in po <==> IsPrime(x) && 2 <= x < hi
    ensures PrimeTable(po)
  {
    assert IsPrime(2);
    assert 2 in po;
    forall q | IsPrime(q) && q <= po[|po| - 1]
      ensures q in po
    {
      assert po[|po| - 1] in po;
    }
  }

  function Max(x: int, y: int): int
  {
    if x >= y then x else y
  }

  /**
    The PrimeInteger tables: SMPRM, the primes below 2 * (IMPDS_MIN / 2) + 2,
    UZ210, the units of Z/210 in increasing order, and the Fermat residue lists,
    which come from residueListFermat and ModLongRing.chineseRemainder outside
    this model.
  */
  class PrimeInteger {
    const smprm: seq<int>
    const uz210: seq<int>
    const residues: int -> (seq<int>, int)

    ghost predicate Valid()
    {
      PrimeTable(smprm) && UnitTable(uz210) && forall k :: FermatList(residues(k))
    }

    /** The static initialisers: SMPRM = smallPrimes(2, IMPDS_MIN >> 1), UZ210 = getUZ210(). */
    constructor (residues: int -> (seq<int>, int))
      requires forall k :: FermatList(residues(k))
      ensures Valid() && this.residues == residues
      ensures forall x :: x in smprm <==> Numbers.IsPrime(x) && 2 <= x < 2 + 2 * (ImpdsMin / 2)
      ensures forall x :: x in uz210 <==> Unit210(x)
    {
      var p := SmallPrimesCorrected(2, ImpdsMin / 2);
      var u := GetUZ210();
      TableOfPrimes(p, 2 + 2 * (ImpdsMin / 2));
      smprm := p;
      uz210 := u;
      this.residues := residues;
    }

    /**
      factors(n): the factor map of n.  Every key is at least 2, and the keys
      multiplied out with their multiplicities give back n.  Above BETA the source
      throws.
    */
    method Factors(n: int) returns (r: Result<Factors>)
      requires Valid() && n >= 1
      ensures r.Err? <==> n > Beta
      ensures r.Ok? ==> FactorsOf(r.value, n)
      decreases n
    {
      if n > Beta {
        return Err("factors(long) only for longs less than BETA");
      }
      var ML, F := SmallPrimeDivisors(n, [], smprm);
      StartPartial(n, ML, F);
      if ML == 1 {
        PartialDone(F, ML, n);
        return Ok(F);
      }
      var AL := ImpdsMin;
      var PL, BL, CL := 1, 0, 0;
      while true
        invariant Partial(F, ML, n) && AL >= ImpdsMin
        decreases ML
      {
        var MLP := ML - 1;
        var RL := ModPow(3, MLP, ML);
        if RL == 1 {
          CofactorBound(F, ML, n);
          var FP := Factors(MLP);
          var SL := PrimalityTestSelfridge(ML, MLP, FP.value, smprm);
          if SL == 1 {
            PutLast(F, ML, n);
            return Ok(AddFactor(F, ML));
          }
        }
        CL := Isqrt(ML);
        BL := Max(ImpdsMax, CL / 3);
        if AL > BL {
          PL := 1;
        } else {
          PL := MediumPrimeDivisorSearch(ML, AL, BL, uz210);
          if PL != 1 {
            AL := PL;
            PutFactor(F, ML, n, PL);
            F := AddFactor(F, PL);
            ML := ML / PL;
          }
        }
        if PL == 1 {
          break;
        }
      }
      AL := BL;
      BL := CL;
      CofactorBound(F, ML, n);
      var R := residues(ML);
      var large := LargePrimeDivisorSearch(ML, AL, BL, R.0, R.1);
      PL := large.value;
      if PL != 1 {
        PutFactor(F, ML, n, PL);
        F := AddFactor(F, PL);
        ML := ML / PL;
      }
      if ML != 1 {
        PutLast(F, ML, n);
        F := AddFactor(F, ML);
      } else {
        PartialDone(F, ML, n);
      }
      return Ok(F);
    }

    /**
      isPrime(n): whether factors(n) is a single key with multiplicity 1.  Every
      prime up to BETA passes, and 1 does not.
    */
    method IsPrime(n: int) returns (r: Result<bool>)
      requires Valid() && n >= 1
      ensures r.Err? <==> n > Beta
      ensures r == Ok(true) ==> n >= 2
      ensures n == 1 ==> r == Ok(false)
      ensures n <= Beta && Numbers.IsPrime(n) ==> r == Ok(true)
    {
      var f := Factors(n);
      if f.Err? {
        return Err(f.msg);
      }
      var F := f.value;
      r := Ok(|F| == 1 && F[0].1 == 1);
      if n == 1 {
        FactorsOfOne(F);
      }
      if Numbers.IsPrime(n) {
        FactorsOfPrime(F, n);
      }
      if |F| == 1 {
        ProdAtLeastTwo(F);
      }
    }

    /**
      isPrimeFactorization(NL, F): every key passes isPrime, and the keys
      multiplied out give NL.  isPrime throws on a key above BETA.
    */
    method IsPrimeFactorization(NL: int, F: Factors) returns (r: Result<bool>)
      requires Valid() && forall t :: 0 <= t < |F| ==> F[t].0 >= 1
      ensures r.Err? ==> exists t :: 0 <= t < |F| && F[t].0 > Beta
      ensures (forall t :: 0 <= t < |F| ==> F[t].0 <= Beta) ==> r.Ok?
      ensures r == Ok(true) ==> NL == Prod(F) && forall t :: 0 <= t < |F| ==> F[t].0 >= 2
      ensures (forall t :: 0 <= t < |F| ==> Numbers.IsPrime(F[t].0) && F[t].0 <= Beta)
              ==> r == Ok(NL == Prod(F))
    {
      var f := 1;
      for i := 0 to |F|
        invariant f * Prod(F[i..]) == Prod(F)
        invariant forall t :: 0 <= t < i ==> 2 <= F[t].0 <= Beta
      {
        var p := F[i].0;
        var ok := IsPrime(p);
        if ok.Err? {
          return Err(ok.msg);
        }
        if !ok.value {
          return Ok(false);
        }
        var e := F[i].1;
        var pe := Pow(p, e);
        ProdSplit(F, i);
        Regroup(f, pe, Prod(F[i + 1..]));
        f := f * pe;
      }
      assert F[|F|..] == [];
      return Ok(NL == f);
    }
  }
}
