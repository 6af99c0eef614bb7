/**
  The trial-division stages of PrimeInteger's factorisation: the division by the
  table of small primes (SAC2's ISPD), the search through the numbers prime to 210
  (IMPDS) and Selfridge's primality test (ISPT).
*/
module PrimeSearch {
  import opened Numbers
  import opened PrimeSieve
  import opened FactorMap

  /** PrimeList.getLongPrime(61, 1) = 2^61 - 1, the largest long factors accepts. */
  const Beta: int := 0x1FFF_FFFF_FFFF_FFFF

  /** ModLong(m, b).power(e): the power reduced modulo m. */
  function ModPow(b: int, e: nat, m: int): int
    requires m >= 1
  {
    Pow(b, e) % m
  }

  /** A table of primes in increasing order that holds every prime up to its last entry, as SMPRM does. */
  ghost predicate PrimeTable(LP: seq<int>)
  {
    |LP| > 0 && StrictlyIncreasing(LP) && (forall t :: 0 <= t < |LP| ==> IsPrime(LP[t]))
    && (forall q :: IsPrime(q) && q <= LP[|LP| - 1] ==> q in LP)
  }

  // ---------------------------------------------------------------- small prime divisors

  /** A number that no table prime up to its square root divides is prime. */
  lemma SievedPrime(ML: int, LP: seq<int>, i: int)
    requires ML >= 2 && PrimeTable(LP) && 0 <= i <= |LP|
    requires forall t :: 0 <= t < i ==> ML % LP[t] != 0
    requires forall q :: IsPrime(q) && q * q <= ML ==> q in LP[..i]
    ensures IsPrime(ML)
  {
    if !IsPrime(ML) {
      LeastDivisorPrime(ML);
      LeastDivisorSquare(ML);
    }
  }

  /** After a division leaves ML <= LP[i], the primes up to sqrt(ML) lie before i. */
  lemma BelowEntry(ML: int, LP: seq<int>, i: int)
    requires PrimeTable(LP) && 0 <= i < |LP| && ML <= LP[i]
    ensures forall q :: IsPrime(q) && q * q <= ML ==> q in LP[..i]
  {
    forall q | IsPrime(q) && q * q <= ML
      ensures q in LP[..i]
    {
      MulLe(q, 2, q);
      assert q <= LP[|LP| - 1];
      var t :| 0 <= t < |LP| && LP[t] == q;
      assert t < i;
      assert LP[..i][t] == q;
    }
  }

  /** After a failed division with quotient at most P = LP[i-1], the primes up to sqrt(ML) lie before i. */
  lemma BelowSquare(ML: int, LP: seq<int>, i: int)
    requires PrimeTable(LP) && 1 <= i <= |LP| && ML >= 0 && ML / LP[i - 1] <= LP[i - 1]
    ensures forall q :: IsPrime(q) && q * q <= ML ==> q in LP[..i]
  {
    var P := LP[i - 1];
    assert ML < P * P + P by {
      assert ML == P * (ML / P) + ML % P;
      MulLe(P, ML / P, P);
    }
    forall q | IsPrime(q) && q * q <= ML
      ensures q in LP[..i]
    {
      assert q <= P by {
        if q > P {
          MulLe(q, P + 1, q);
          MulLe(P + 1, P + 1, q);
        }
      }
      var t :| 0 <= t < |LP| && LP[t] == q;
      assert t < i;
      assert LP[..i][t] == q;
    }
  }

  /** One successful division ML = PL * QL: the quotient is smaller and keeps the failed divisors. */
  lemma DivideStep(G: Factors, PL: int, ML: int, QL: int, LP: seq<int>, i: int)
    requires Sorted(G) && PL >= 2 && ML >= 1 && ML == PL * QL
    requires 0 <= i <= |LP| && forall t :: 0 <= t < i ==> LP[t] >= 2 && ML % LP[t] != 0
    ensures 1 <= QL < ML
    ensures Prod(AddFactor(G, PL)) * QL == Prod(G) * ML
    ensures forall t :: 0 <= t < i ==> QL % LP[t] != 0
  {
    AddFactorProd(G, PL);
    assert QL >= 1 by {
      if QL <= 0 { MulLe(PL, QL, 0); }
    }
    MulLe(QL, 2, PL);
    Assoc(Prod(G), PL, QL);
    forall t | 0 <= t < i
      ensures QL % LP[t] != 0
    {
      if Divides(LP[t], QL) {
        MultipleDivides(QL, PL);
        assert QL * PL == ML;
        DividesTrans(LP[t], QL, ML);
      }
    }
  }

  /** The invariant of smallPrimeDivisors after dividing ML by the table prime PL. */
  lemma DivideFound(F: Factors, n: int, G: Factors, PL: int, ML: int, QL: int, LP: seq<int>, i: int)
    requires Sorted(G) && PrimeTable(LP) && 0 <= i < |LP| && PL == LP[i] && ML >= 1 && ML == PL * QL
    requires Prod(G) * ML == Prod(F) * n && (Positive(F) ==> Positive(G))
    requires forall q :: q in Keys(G) ==> q in Keys(F) || IsPrime(q)
    requires forall t :: 0 <= t < i ==> ML % LP[t] != 0
    ensures 1 <= QL < ML && Sorted(AddFactor(G, PL)) && (Positive(F) ==> Positive(AddFactor(G, PL)))
    ensures Prod(AddFactor(G, PL)) * QL == Prod(F) * n
    ensures forall q :: q in Keys(AddFactor(G, PL)) ==> q in Keys(F) || IsPrime(q)
    ensures forall t :: 0 <= t < i ==> QL % LP[t] != 0
  {
    assert IsPrime(PL);
    DivideStep(G, PL, ML, QL, LP, i);
    AddFactorSorted(G, PL);
  }

  /** The prime cofactor ML joins the map and the cofactor becomes 1. */
  lemma LastFactor(F: Factors, n: int, G: Factors, ML: int)
    requires Sorted(G) && IsPrime(ML) && Prod(G) * ML == Prod(F) * n && (Positive(F) ==> Positive(G))
    requires forall q :: q in Keys(G) ==> q in Keys(F) || IsPrime(q)
    ensures Sorted(AddFactor(G, ML)) && (Positive(F) ==> Positive(AddFactor(G, ML)))
    ensures Prod(AddFactor(G, ML)) * 1 == Prod(F) * n
    ensures forall q :: q in Keys(AddFactor(G, ML)) ==> q in Keys(F) || IsPrime(q)
  {
    AddFactorFacts(G, ML);
  }

  /** A cofactor with ML / PL > PL lies above PL². */
  lemma AboveSquare(ML: int, PL: int, QL: int)
    requires PL > 0 && ML >= 0 && QL == ML / PL && QL > PL
    ensures ML > PL * PL
  {
    assert ML >= PL * QL;
    assert PL * QL >= PL * (PL + 1);
  }

  lemma Assoc(x: int, y: int, z: int)
    ensures x * y * z == x * (y * z)
  {
  }

  /**
    smallPrimeDivisors(n, F): divides out the primes of the table LP, adding each
    one found to the factor map.  It returns the cofactor r with n * F == r * G,
    and r is 1 or has no factor in the table.
  */
  method SmallPrimeDivisors(n: int, F: Factors, LP: seq<int>) returns (r: int, G: Factors)
    requires n >= 1 && Sorted(F) && PrimeTable(LP)
    ensures r >= 1 && Sorted(G) && (Positive(F) ==> Positive(G))
    ensures Prod(G) * r == Prod(F) * n
    ensures forall q :: q in Keys(G) ==> q in Keys(F) || IsPrime(q)
    ensures r == 1 || forall t :: 0 <= t < |LP| ==> r % LP[t] != 0
    ensures r == 1 || r > LP[|LP| - 1] * LP[|LP| - 1]
  {
    var ML := n;
    G := F;
    var TL := false;
    var i := 0;
    var QL := 0;
    while true
      invariant 0 <= i < |LP| && ML >= 1 && Sorted(G) && (Positive(F) ==> Positive(G))
      invariant Prod(G) * ML == Prod(F) * n
      invariant forall q :: q in Keys(G) ==> q in Keys(F) || IsPrime(q)
      invariant forall t :: 0 <= t < i ==> ML % LP[t] != 0
      decreases ML, |LP| - i
    {
      var PL := LP[i];
      QL := ML / PL;
      var RL := ML % PL;
      if RL == 0 {
        assert ML == PL * QL;
        DivideFound(F, n, G, PL, ML, QL, LP, i);
        G := AddFactor(G, PL);
        ML := QL;
        TL := QL <= PL;
        if TL {
          if ML != 1 {
            BelowEntry(ML, LP, i);
            SievedPrime(ML, LP, i);
          }
          break;
        }
      } else {
        i := i + 1;
        TL := QL <= PL;
        if TL || i >= |LP| {
          if !TL {
            assert PL == LP[|LP| - 1];
            AboveSquare(ML, PL, QL);
          }
          if TL && ML != 1 {
            BelowSquare(ML, LP, i);
            SievedPrime(ML, LP, i);
          }
          break;
        }
      }
    }
    if TL && ML != 1 {
      LastFactor(F, n, G, ML);
      G := AddFactor(G, ML);
      ML := 1;
    }
    r := ML;
  }

  // ---------------------------------------------------------------- medium prime divisors

  /** The units of Z/210 in increasing order, the table UZ210. */
  ghost predicate UnitTable(uz: seq<int>)
  {
    StrictlyIncreasing(uz) && forall x :: x in uz <==> Unit210(x)
  }

  /** The numbers mediumPrimeDivisorSearch tries: those prime to 210. */
  predicate Candidate(uz: seq<int>, c: int)
  {
    c % 210 in uz
  }

  /** The table starts at 1 and ends at 209. */
  lemma UnitTableEnds(uz: seq<int>)
    requires UnitTable(uz)
    ensures |uz| > 0 && uz[0] == 1 && uz[|uz| - 1] == 209
    ensures forall t :: 0 <= t < |uz| ==> 1 <= uz[t] <= 209
  {
    assert Gcd(1, 0) == 1 && Gcd(209, 1) == 1;
    assert 1 in uz && 209 in uz;
    assert uz[0] in uz && uz[|uz| - 1] in uz;
  }

  /** A stretch of residues [lo, hi) holding no unit has no candidate above 210 w. */
  lemma NoCandidateIn(uz: seq<int>, w: int, lo: int, hi: int, c: int)
    requires 0 <= lo && hi <= 210 && 210 * w + lo <= c < 210 * w + hi
    requires forall t :: 0 <= t < |uz| ==> !(lo <= uz[t] < hi)
    ensures !Candidate(uz, c)
  {
    DivModUnique(c, 210, w, c - 210 * w);
  }

  lemma CandidateAt(uz: seq<int>, w: int, i: int)
    requires 0 <= i < |uz| && 0 <= uz[i] < 210
    ensures Candidate(uz, 210 * w + uz[i])
  {
    DivModUnique(210 * w + uz[i], 210, w, uz[i]);
  }

  /**
    mediumPrimeDivisorSearch(n, a, b): the least number p in [a, b] prime to 210
    that divides n, or 1 when there is none.  The source returns 1 also when
    a = 1, because 1 divides n.
  */
  method MediumPrimeDivisorSearch(n: int, a: int, b: int, uz: seq<int>) returns (p: int)
    requires n >= 1 && a >= 1 && UnitTable(uz)
    ensures p != 1 ==> a <= p <= b && n % p == 0 && Candidate(uz, p)
    ensures p != 1 ==> forall c :: a <= c < p && Candidate(uz, c) ==> n % c != 0
    ensures p == 1 ==> a == 1 || forall c :: a <= c <= b && Candidate(uz, c) ==> n % c != 0
  {
    UnitTableEnds(uz);
    var RL := a % 210;
    var i := 0;
    while RL > uz[i]
      invariant 0 <= i < |uz| && forall t :: 0 <= t < i ==> uz[t] < RL
      decreases |uz| - i
    {
      i := i + 1;
    }
    var RL1 := uz[i];
    var PL := a + (RL1 - RL);
    ghost var w := a / 210;
    forall c | a <= c < PL
      ensures !Candidate(uz, c)
    {
      NoCandidateIn(uz, w, RL, RL1, c);
    }
    while PL <= b
      invariant 0 <= i < |uz| && RL1 == uz[i] && PL == 210 * w + RL1 && a <= PL
      invariant forall c :: a <= c < PL && Candidate(uz, c) ==> n % c != 0
      decreases b - PL
    {
      var R := n % PL;
      if R == 0 {
        CandidateAt(uz, w, i);
        return PL;
      }
      ghost var PL0, i0, w0 := PL, i, w;
      i := i + 1;
      var RL2;
      if i >= |uz| {
        RL2 := RL1 - 210;
        i := 0;
        w := w + 1;
      } else {
        RL2 := RL1;
      }
      RL1 := uz[i];
      PL := PL + (RL1 - RL2);
      forall c | PL0 < c < PL
        ensures !Candidate(uz, c)
      {
        if i == 0 {
          NoCandidateIn(uz, w, 0, 1, c);
        } else {
          NoCandidateIn(uz, w, uz[i0] + 1, uz[i], c);
        }
      }
    }
    return 1;
  }

  /** Every divisor of a number prime to 210 is prime to 210. */
  lemma CandidateDivisor(uz: seq<int>, r: int, e: int)
    requires UnitTable(uz) && r >= 1 && e >= 1 && Candidate(uz, r) && Divides(e, r)
    ensures Candidate(uz, e)
  {
    var x, y := r % 210, e % 210;
    assert r == 2 * (105 * (r / 210)) + x;
    ModAddMultiple(2, 105 * (r / 210), x);
    assert e % 2 == 1 by {
      if e % 2 == 0 {
        DividesTrans(2, e, r);
      }
    }
    assert e == 2 * (105 * (e / 210)) + y;
    ModAddMultiple(2, 105 * (e / 210), y);
    var g := Gcd(210, y);
    GcdDivides(210, y);
    GcdPositive(210, y);
    DividesLinear(g, 210, y, e / 210, 1);
    assert (e / 210) * 210 + 1 * y == e;
    DividesTrans(g, e, r);
    DividesLinear(g, r, 210, 1, -(r / 210));
    assert 1 * r + (-(r / 210)) * 210 == x;
    GcdGreatest(210, x, g);
    DividesBound(g, 1);
    assert y >= 1;
  }

  /**
    The least candidate divisor of n at or above a, when n has no divisor in
    [2, a), is prime: so mediumPrimeDivisorSearch in factors finds primes.
  */
  lemma LeastCandidatePrime(uz: seq<int>, n: int, a: int, r: int)
    requires UnitTable(uz) && n >= 1 && 2 <= a <= r && n % r == 0 && Candidate(uz, r)
    requires forall c :: 2 <= c < a ==> n % c != 0
    requires forall c :: a <= c < r && Candidate(uz, c) ==> n % c != 0
    ensures IsPrime(r)
  {
    forall e | 2 <= e < r
      ensures r % e != 0
    {
      if r % e == 0 {
        DividesTrans(e, r, n);
        if e >= a {
          CandidateDivisor(uz, r, e);
        }
      }
    }
  }

  // ---------------------------------------------------------------- Selfridge's test

  /** P[j] certifies the prime factor q of m - 1: it passes Fermat's test and its power (m-1)/q is not 1. */
  ghost predicate LucasWitness(m: int, mp: nat, P: seq<int>, q: int)
    requires m >= 1 && q > 0
  {
    exists j :: 0 <= j < |P| && ModPow(P[j], mp, m) == 1 && ModPow(P[j], mp / q, m) != 1
  }

  /** The bases of the table below index c are the ones tried so far, all passing Fermat's test. */
  ghost predicate FermatPassed(m: int, mp: nat, P: seq<int>, c: int, PL1: int)
    requires m >= 1
  {
    0 <= c <= |P| && PL1 == (if c == 0 then 1 else P[c - 1])
    && forall t :: 0 <= t < c ==> ModPow(P[t], mp, m) == 1
  }

  /**
    The inner loop of primalityTestSelfridge for one prime q of m - 1: it runs
    through the table for a base whose power (m-1)/q is not 1, and tests by
    Fermat's test each base above PL1, the largest tried before.  The answer 1
    means a witness for q was found, -1 and 0 are the test's own answers.
  */
  method SeekWitness(m: int, mp: int, q: int, P: seq<int>, PL1: int, ghost c: int)
    returns (s: int, PL1': int, ghost c': int)
    requires m >= 2 && mp == m - 1 && q > 1
    requires StrictlyIncreasing(P) && forall j :: 0 <= j < |P| ==> P[j] >= 2
    requires FermatPassed(m, mp, P, c, PL1)
    ensures s == -1 || s == 0 || s == 1
    ensures s == -1 ==> exists j :: 0 <= j < |P| && ModPow(P[j], mp, m) != 1
    ensures s == 0 ==> forall j :: 0 <= j < |P| ==> ModPow(P[j], mp / q, m) == 1
    ensures s == 1 ==> LucasWitness(m, mp, P, q) && FermatPassed(m, mp, P, c', PL1')
  {
    PL1', c' := PL1, c;
    var j := 0;
    while true
      invariant 0 <= j <= c' && FermatPassed(m, mp, P, c', PL1')
      invariant forall t :: 0 <= t < j ==> ModPow(P[t], mp / q, m) == 1
      decreases |P| - j
    {
      if j == |P| {
        return 0, PL1', c';
      }
      var PL := P[j];
      j := j + 1;
      if PL > PL1' {
        PL1' := PL;
        c' := c' + 1;
        var AL := ModPow(PL, mp, m);
        if AL != 1 {
          return -1, PL1', c';
        }
      }
      var MLPP := mp / q;
      var BL := ModPow(PL, MLPP, m);
      if BL != 1 {
        assert ModPow(P[j - 1], mp, m) == 1 && ModPow(P[j - 1], mp / q, m) != 1;
        return 1, PL1', c';
      }
    }
  }

  /**
    primalityTestSelfridge(m, m-1, F): for each prime q of the factor map of
    m - 1 it looks through the table P for a base whose power (m-1)/q is not 1,
    testing each base once by Fermat's test.  The answer -1 comes with a base
    that fails Fermat's test, 1 with a certificate for every factor, and 0 with a
    factor that no base of the table certifies.
  */
  method PrimalityTestSelfridge(m: int, mp: int, F: Factors, P: seq<int>) returns (s: int)
    requires m >= 2 && mp == m - 1 && Sorted(F)
    requires StrictlyIncreasing(P) && forall j :: 0 <= j < |P| ==> P[j] >= 2
    ensures s == -1 || s == 0 || s == 1
    ensures s == -1 ==> exists j :: 0 <= j < |P| && ModPow(P[j], mp, m) != 1
    ensures s == 1 ==> forall k :: 0 <= k < |F| && F[k].0 > 1 ==> LucasWitness(m, mp, P, F[k].0)
    ensures s == 0 ==> exists k :: 0 <= k < |F| && F[k].0 > 1
                        && forall j :: 0 <= j < |P| ==> ModPow(P[j], mp / F[k].0, m) == 1
  {
    SortedStrict(F);
    var QL1 := 1;
    var PL1 := 1;
    var i := 0;
    ghost var c := 0;
    while true
      invariant 0 <= i <= |F| && FermatPassed(m, mp, P, c, PL1)
      invariant QL1 >= 1 && (QL1 == 1 || (i > 0 && F[i - 1].0 == QL1))
      invariant forall k :: 0 <= k < i && F[k].0 > 1 ==> LucasWitness(m, mp, P, F[k].0)
      decreases |F| - i
    {
      ghost var i0 := i;
      var QL := 0;
      while true
        invariant i0 <= i <= |F|
        invariant QL1 >= 1 && (QL1 == 1 || (i > 0 && F[i - 1].0 == QL1))
        invariant forall k :: 0 <= k < i && F[k].0 > 1 ==> LucasWitness(m, mp, P, F[k].0)
        decreases |F| - i
      {
        if i == |F| {
          return 1;
        }
        QL := F[i].0;
        i := i + 1;
        if QL > QL1 {
          break;
        }
      }
      QL1 := QL;
      var SL;
      SL, PL1, c := SeekWitness(m, mp, QL, P, PL1, c);
      if SL != 1 {
        return SL;
      }
    }
  }
}
