/**
  Sparse polynomials as GenPolynomial keeps them: a map from exponent vectors to nonzero
  coefficients, and the PolyUtil conversions between coefficient rings that fill such
  maps term by term: the symmetric and positive lifts Z/m -> Z, the reduction Z -> Z/m,
  rational -> integer scaling and coefficient-wise Chinese remaindering.
*/
module SparsePoly {
  import opened Numbers

  /** An ExpVector: one exponent per variable. */
  type Exp = seq<nat>

  /** A GenPolynomial over an integer-valued coefficient ring: exponent -> coefficient. */
  type SPoly = map<Exp, int>

  /** The coefficient at e; absent terms are zero. */
  function Get(A: SPoly, e: Exp): int
  {
    if e in A then A[e] else 0
  }

  /** Coefficients are residues 0 <= c < m (a ModInteger polynomial may hold any residue). */
  ghost predicate Residues(A: SPoly, m: int)
  {
    forall e :: e in A ==> 0 <= A[e] < m
  }

  /** A well-formed polynomial over Z/m: GenPolynomial stores no zero coefficient. */
  ghost predicate ModPoly(A: SPoly, m: int)
  {
    forall e :: e in A ==> 0 < A[e] < m
  }

  // ---------------------------------------------------------------------------------
  // integerFromModularCoefficients and its positive variant

  /**
    The symmetric lift of a polynomial over Z/m: every coefficient is replaced by the
    integer in (-m/2, m/2] that it represents; the exponent set is unchanged.
  */
  function SymmetricLift(A: SPoly, m: int): (B: SPoly)
    requires m > 0 && Residues(A, m)
    ensures B.Keys == A.Keys
    ensures forall e :: e in B ==> B[e] % m == A[e] && -m < 2 * B[e] <= m
  {
    var B := map e | e in A :: SymLift(A[e], m);
    assert forall e :: e in B ==> B[e] % m == A[e] && -m < 2 * B[e] <= m by {
      forall e | e in B ensures B[e] % m == A[e] && -m < 2 * B[e] <= m {
        SymLiftReduces(A[e], m);
      }
    }
    B
  }

  /** PolyUtil.integerFromModularCoefficients: one put per term of A. */
  method IntegerFromModularCoefficients(A: SPoly, m: int) returns (B: SPoly)
    requires m > 0 && Residues(A, m)
    ensures B == SymmetricLift(A, m)
  {
    B := map[];
    if A == map[] {
      return;
    }
    var todo := A.Keys;
    while todo != {}
      invariant todo <= A.Keys
      invariant B == map e | e in A.Keys - todo :: SymLift(A[e], m)
      decreases |todo|
    {
      var e :| e in todo;
      var av := A[e];
      if av + av > m {
        av := av - m;
      }
      B := B[e := av];
      todo := todo - {e};
    }
  }

  /** PolyUtil.integerFromModularCoefficientsPositive: the residues themselves, as integers. */
  method IntegerFromModularCoefficientsPositive(A: SPoly, m: int) returns (B: SPoly)
    requires m > 0 && Residues(A, m)
    ensures B == A
  {
    B := map[];
    if A == map[] {
      return;
    }
    var todo := A.Keys;
    while todo != {}
      invariant todo <= A.Keys
      invariant B == map e | e in A.Keys - todo :: A[e]
      decreases |todo|
    {
      var e :| e in todo;
      B := B[e := A[e]];
      todo := todo - {e};
    }
  }

  // ---------------------------------------------------------------------------------
  // fromIntegerCoefficients

  /**
    Reduction of an integer polynomial modulo m: each coefficient becomes its residue,
    and terms whose residue is zero are dropped.
  */
  function Reduction(A: SPoly, m: int): (B: SPoly)
    requires m > 0
    ensures forall e :: e in B <==> e in A && A[e] % m != 0
    ensures forall e :: e in B ==> 0 < B[e] < m && Divides(m, B[e] - A[e])
    ensures ModPoly(B, m)
  {
    var B := map e | e in A && A[e] % m != 0 :: A[e] % m;
    assert forall e :: e in B ==> Divides(m, B[e] - A[e]) by {
      forall e | e in B ensures Divides(m, B[e] - A[e]) {
        ModCongruent(m, A[e]);
        DividesTimes(m, A[e] - A[e] % m, -1);
      }
    }
    B
  }

  /** PolyUtil.fromIntegerCoefficients into Z/m: puts only the nonzero residues. */
  method FromIntegerCoefficients(A: SPoly, m: int) returns (B: SPoly)
    requires m > 0
    ensures B == Reduction(A, m)
  {
    B := map[];
    if A == map[] {
      return;
    }
    var todo := A.Keys;
    while todo != {}
      invariant todo <= A.Keys
      invariant B == map e | e in A.Keys - todo && A[e] % m != 0 :: A[e] % m
      decreases |todo|
    {
      var e :| e in todo;
      var p := A[e] % m;
      if p != 0 {
        B := B[e := p];
      }
      todo := todo - {e};
    }
  }

  /** Reducing the symmetric lift of a polynomial over Z/m gives it back. */
  lemma ReductionOfSymmetricLift(A: SPoly, m: int)
    requires m > 0 && ModPoly(A, m)
    ensures Reduction(SymmetricLift(A, m), m) == A
  {
    var B := Reduction(SymmetricLift(A, m), m);
    forall e | e in A ensures e in B && B[e] == A[e] {
      SymLiftReduces(A[e], m);
    }
  }

  /** Reducing the positive lift gives the polynomial back too. */
  lemma ReductionOfPositiveLift(A: SPoly, m: int)
    requires m > 0 && ModPoly(A, m)
    ensures Reduction(A, m) == A
  {
    forall e | e in A ensures A[e] % m == A[e] {
      DivModUnique(A[e], m, 0, A[e]);
    }
  }

  /**
    Lifting a reduction gives a polynomial congruent to the original modulo m:
    kept terms differ by multiples of m, dropped terms were multiples of m.
  */
  lemma SymmetricLiftOfReduction(A: SPoly, m: int)
    requires m > 0
    ensures forall e :: Divides(m, Get(SymmetricLift(Reduction(A, m), m), e) - Get(A, e))
  {
    var R := Reduction(A, m);
    var L := SymmetricLift(R, m);
    forall e ensures Divides(m, Get(L, e) - Get(A, e)) {
      if e in A && A[e] % m != 0 {
        ModCongruent(m, L[e]);
        DividesSum(m, L[e] - R[e], R[e] - A[e]);
      } else if e in A {
        ModCongruent(m, A[e]);
        DividesTimes(m, A[e], -1);
      } else {
        MultipleDivides(m, 0);
      }
    }
  }

  // ---------------------------------------------------------------------------------
  // integerFromRationalCoefficients

  /** A BigRational in lowest terms keeps a positive denominator. */
  datatype Rat = Rat(num: int, den: int)

  ghost predicate PositiveDenominators(A: map<Exp, Rat>)
  {
    forall e :: e in A ==> A[e].den > 0
  }

  /** lcm(c, x) as the source computes it: c * (x / gcd(c, x)). */
  function Lcm(c: nat, x: nat): (l: nat)
    requires c > 0 && x > 0
    ensures l > 0 && Divides(c, l) && Divides(x, l)
  {
    var g := Gcd(c, x);
    GcdDivides(c, x);
    GcdPositive(c, x);
    LcmFacts(c, x, g);
    c * (x / g)
  }

  lemma LcmFacts(c: int, x: int, g: int)
    requires c > 0 && x > 0 && g > 0 && Divides(g, c) && Divides(g, x)
    ensures c * (x / g) > 0 && Divides(c, c * (x / g)) && Divides(x, c * (x / g))
  {
    var xg := DividesQuotient(g, x);
    var cg := DividesQuotient(g, c);
    assert x / g == xg by { DivModUnique(x, g, xg, 0); }
    MulSign(g, xg);
    MulSign(g, cg);
    assert c * xg == x * cg;
    MultipleDivides(c, xg);
    MultipleDivides(x, cg);
  }

  lemma MulSign(g: int, k: int)
    requires g > 0 && g * k > 0
    ensures k > 0
  {
    MulAwayFromZero(g, k);
  }

  /** Every common multiple of c and x is a multiple of Lcm(c, x). */
  lemma {:induction false} LcmLeast(c: nat, x: nat, L: int)
    requires c > 0 && x > 0 && Divides(c, L) && Divides(x, L)
    ensures Divides(Lcm(c, x), L)
  {
    var g := Gcd(c, x);
    GcdDivides(c, x);
    GcdPositive(c, x);
    var st := ExtGcd(c, x);
    var u := DividesQuotient(c, L);
    var v := DividesQuotient(x, L);
    var xg := DividesQuotient(g, x);
    assert x / g == xg by { DivModUnique(x, g, xg, 0); }
    var k := st.0 * v + st.1 * u;
    // L * g == c * x * k, and x == g * xg, so L == c * xg * k
    LcmArith(L, g, c, x, u, v, st.0, st.1, xg);
    MultipleDivides(Lcm(c, x), k);
  }

  lemma LcmArith(L: int, g: int, c: int, x: int, u: int, v: int, s: int, t: int, xg: int)
    requires g > 0 && s * c + t * x == g && L == c * u && L == x * v && x == g * xg
    ensures L == (c * xg) * (s * v + t * u)
  {
    assert L * g == s * c * L + t * x * L;
    assert s * c * L == (c * x) * (s * v);
    assert t * x * L == (c * x) * (t * u);
    assert L * g == (c * x) * (s * v + t * u);
    assert (c * x) * (s * v + t * u) == g * ((c * xg) * (s * v + t * u));
    MulCancel(g, L, (c * xg) * (s * v + t * u));
  }

  lemma MulCancel(g: int, a: int, b: int)
    requires g > 0 && a * g == g * b
    ensures a == b
  {
    assert g * (a - b) == 0;
    if a - b > 0 { MulAwayFromZero(g, a - b); }
    if a - b < 0 { MulAwayFromZero(g, a - b); }
  }

  /**
    PolyUtil.integerFromRationalCoefficients: c is the lcm of all denominators (the first
    one, then c := c * (x / gcd(c, x))), and each term n/d becomes n * (c / d).
    The result is c times A: every coefficient is an integer, and c is the least
    positive integer that clears all denominators.
  */
  /** l is the least common multiple of the denominators A has at the keys in done. */
  ghost predicate IsDenominatorLcm(A: map<Exp, Rat>, done: set<Exp>, l: int)
    requires done <= A.Keys
  {
    && l > 0
    && (forall e :: e in done ==> Divides(A[e].den, l))
    && (forall L: int :: (forall e :: e in done ==> Divides(A[e].den, L)) ==> Divides(l, L))
  }

  method IntegerFromRationalCoefficients(A: map<Exp, Rat>) returns (B: SPoly, ghost c: int)
    requires PositiveDenominators(A)
    ensures A == map[] ==> B == map[]
    ensures A != map[] ==> IsDenominatorLcm(A, A.Keys, c)
    ensures B.Keys == A.Keys
    ensures forall e :: e in B ==> B[e] * A[e].den == A[e].num * c
  {
    B := map[];
    c := 0;
    if A == map[] {
      return;
    }
    var lcm := DenominatorLcm(A);
    c := lcm;
    var todo := A.Keys;
    while todo != {}
      invariant todo <= A.Keys
      invariant B.Keys == A.Keys - todo && c == lcm
      invariant forall e :: e in B ==> B[e] * A[e].den == A[e].num * c
      decreases |todo|
    {
      var e :| e in todo;
      var b := JavaDiv(lcm, A[e].den);
      JavaDivExact(lcm, A[e].den);
      ClearDenominator(A[e].num, A[e].den, b, c);
      B := B[e := A[e].num * b];
      todo := todo - {e};
    }
  }

  /** n/d times c, with c == d * b, is the integer n * b. */
  lemma ClearDenominator(n: int, d: int, b: int, c: int)
    requires d * b == c
    ensures (n * b) * d == n * c
  {
  }

  /** The first loop of integerFromRationalCoefficients: the lcm of all denominators. */
  method DenominatorLcm(A: map<Exp, Rat>) returns (lcm: nat)
    requires PositiveDenominators(A) && A != map[]
    ensures IsDenominatorLcm(A, A.Keys, lcm)
  {
    var todo := A.Keys;
    var first := true;
    lcm := 1;
    while todo != {}
      invariant todo <= A.Keys
      invariant first <==> todo == A.Keys
      invariant !first ==> IsDenominatorLcm(A, A.Keys - todo, lcm)
      decreases |todo|
    {
      var e :| e in todo;
      var x := A[e].den;
      if first {
        LcmFirst(A, e);
        lcm := x;
        first := false;
      } else {
        LcmStep(A, A.Keys - todo, e, lcm);
        lcm := Lcm(lcm, x);
      }
      assert A.Keys - (todo - {e}) == (A.Keys - todo) + {e};
      todo := todo - {e};
    }
  }

  lemma LcmFirst(A: map<Exp, Rat>, e: Exp)
    requires PositiveDenominators(A) && e in A
    ensures IsDenominatorLcm(A, {e}, A[e].den)
  {
    assert A[e].den > 0;
  }

  /** One lcm step: the lcm of done's denominators and one more is the lcm of both. */
  lemma LcmStep(A: map<Exp, Rat>, done: set<Exp>, e: Exp, lcm: nat)
    requires PositiveDenominators(A) && done <= A.Keys && e in A
    requires IsDenominatorLcm(A, done, lcm)
    ensures IsDenominatorLcm(A, done + {e}, Lcm(lcm, A[e].den))
  {
    var x := A[e].den;
    assert x > 0;
    var l := Lcm(lcm, x);
    forall e' | e' in done + {e} ensures Divides(A[e'].den, l) {
      if e' in done { DividesTrans(A[e'].den, lcm, l); }
    }
    forall L: int | (forall e' :: e' in done + {e} ==> Divides(A[e'].den, L))
      ensures Divides(l, L)
    {
      assert e in done + {e};
      assert Divides(lcm, L);
      LcmLeast(lcm, x, L);
    }
  }

  // ---------------------------------------------------------------------------------
  // chineseRemainder

  /**
    ModInteger.chineseRemainder(x, mi, y) for coprime moduli m1, m2 with mi the inverse of
    m1 modulo m2 (Garner's formula): the residue modulo m1*m2 that is x modulo m1 and
    y modulo m2.
  */
  function CrtCoefficient(x: int, y: int, m1: int, m2: int, mi: int): (c: int)
    requires m1 > 0 && m2 > 0 && 0 <= x < m1 && 0 <= y < m2 && (m1 * mi) % m2 == 1
    ensures 0 <= c < m1 * m2
    ensures c % m1 == x && c % m2 == y
    ensures x > 0 || y > 0 ==> c > 0
  {
    var d := ((y - x) * mi) % m2;
    CrtBounds(x, d, m1, m2);
    CrtResidues(x, y, d, m1, m2, mi);
    x + m1 * d
  }

  lemma CrtBounds(x: int, d: int, m1: int, m2: int)
    requires m1 > 0 && m2 > 0 && 0 <= x < m1 && 0 <= d < m2
    ensures 0 <= x + m1 * d < m1 * m2
  {
    assert m1 * d <= m1 * (m2 - 1);
  }

  lemma CrtResidues(x: int, y: int, d: int, m1: int, m2: int, mi: int)
    requires m1 > 0 && m2 > 0 && 0 <= x < m1 && 0 <= y < m2 && (m1 * mi) % m2 == 1
    requires d == ((y - x) * mi) % m2
    ensures (x + m1 * d) % m1 == x && (x + m1 * d) % m2 == y
    ensures x + m1 * d == 0 ==> x == 0 && y == 0
  {
    DivModUnique(x + m1 * d, m1, d, x);
    // m1 * d == m1 * mi * (y - x) == y - x modulo m2
    var k1 := ((y - x) * mi) / m2;
    var k2 := (m1 * mi) / m2;
    assert (y - x) * mi == m2 * k1 + d;
    assert m1 * mi == m2 * k2 + 1;
    CrtArith(x, y, d, m1, m2, mi, k1, k2);
    DivModUnique(x + m1 * d, m2, (y - x) * k2 - m1 * k1, y);
    if x + m1 * d == 0 {
      DivModUnique(0, m1, 0, 0);
      DivModUnique(0, m2, 0, 0);
    }
  }

  lemma CrtArith(x: int, y: int, d: int, m1: int, m2: int, mi: int, k1: int, k2: int)
    requires (y - x) * mi == m2 * k1 + d && m1 * mi == m2 * k2 + 1
    ensures x + m1 * d == m2 * ((y - x) * k2 - m1 * k1) + y
  {
    assert m1 * d == m1 * ((y - x) * mi) - m1 * (m2 * k1);
    assert m1 * ((y - x) * mi) == (y - x) * (m1 * mi);
    assert (y - x) * (m1 * mi) == (y - x) * (m2 * k2) + (y - x);
  }

  /**
    The coefficient-wise Chinese remainder of A over Z/m1 and B over Z/m2: on the union of
    their exponents, the residue modulo m1*m2 that reduces to A's coefficient modulo m1
    and to B's modulo m2 (absent terms count as zero).
  */
  ghost predicate IsCrt(S: SPoly, A: SPoly, B: SPoly, m1: int, m2: int)
    requires m1 > 0 && m2 > 0
  {
    && S.Keys == A.Keys + B.Keys
    && forall e :: e in S ==> CrtResidue(S[e], Get(A, e), Get(B, e), m1, m2)
  }

  /** c is a nonzero residue modulo m1*m2 that is x modulo m1 and y modulo m2. */
  ghost predicate CrtResidue(c: int, x: int, y: int, m1: int, m2: int)
    requires m1 > 0 && m2 > 0
  {
    0 < c < m1 * m2 && c % m1 == x && c % m2 == y
  }

  /**
    PolyUtil.chineseRemainder: walks B's terms, combining each with A's term of the same
    exponent (removed from a copy of A) or with zero, then the rest of A with zero; a zero
    combination is never stored, and none arises.
  */
  method ChineseRemainder(A: SPoly, m1: int, mi: int, B: SPoly, m2: int) returns (S: SPoly)
    requires m1 > 0 && m2 > 0 && (m1 * mi) % m2 == 1
    requires ModPoly(A, m1) && ModPoly(B, m2)
    ensures IsCrt(S, A, B, m1, m2)
  {
    var S0, av := CombineWithB(A, m1, mi, B, m2);
    S := CombineRest(S0, av, m1, mi, m2);
    assert S.Keys == A.Keys + B.Keys;
    forall e | e in S ensures CrtResidue(S[e], Get(A, e), Get(B, e), m1, m2) {
      if e !in B { assert S[e] == CrtCoefficient(A[e], 0, m1, m2, mi); }
    }
  }

  /** The first loop of chineseRemainder: B's terms, with A's matching terms taken out of a copy. */
  method CombineWithB(A: SPoly, m1: int, mi: int, B: SPoly, m2: int) returns (S: SPoly, av: SPoly)
    requires m1 > 0 && m2 > 0 && (m1 * mi) % m2 == 1
    requires ModPoly(A, m1) && ModPoly(B, m2)
    ensures forall e :: e in av <==> e in A && e !in B
    ensures forall e :: e in av ==> av[e] == A[e]
    ensures forall e :: e in S <==> e in B
    ensures forall e :: e in S ==> S[e] == CrtCoefficient(Get(A, e), B[e], m1, m2, mi)
  {
    S := map[];
    av := A;
    var todo := B.Keys;
    while todo != {}
      invariant todo <= B.Keys
      invariant forall e :: e in av <==> e in A && (e !in B || e in todo)
      invariant forall e :: e in av ==> av[e] == A[e]
      invariant forall e :: e in S <==> e in B && e !in todo
      invariant forall e :: e in S ==> S[e] == CrtCoefficient(Get(A, e), B[e], m1, m2, mi)
      decreases |todo|
    {
      var e :| e in todo;
      var y := B[e];
      var c;
      if e in av {
        var x := av[e];
        av := av - {e};
        c := CrtCoefficient(x, y, m1, m2, mi);
      } else {
        c := CrtCoefficient(0, y, m1, m2, mi);
      }
      if c != 0 { // never zero: c % m2 == y
        S := S[e := c];
      }
      todo := todo - {e};
    }
  }

  /** The second loop of chineseRemainder: A's terms that B lacks, combined with zero. */
  method CombineRest(S0: SPoly, av: SPoly, m1: int, mi: int, m2: int) returns (S: SPoly)
    requires m1 > 0 && m2 > 0 && (m1 * mi) % m2 == 1
    requires ModPoly(av, m1) && S0.Keys !! av.Keys
    ensures forall e :: e in S <==> e in S0 || e in av
    ensures forall e :: e in S0 ==> S[e] == S0[e]
    ensures forall e :: e in av ==> S[e] == CrtCoefficient(av[e], 0, m1, m2, mi)
  {
    S := S0;
    var todo := av.Keys;
    while todo != {}
      invariant todo <= av.Keys
      invariant forall e :: e in S <==> e in S0 || (e in av && e !in todo)
      invariant forall e :: e in S0 ==> S[e] == S0[e]
      invariant forall e :: e in av && e !in todo ==> S[e] == CrtCoefficient(av[e], 0, m1, m2, mi)
      decreases |todo|
    {
      var e :| e in todo;
      var x := av[e];
      var c := CrtCoefficient(x, 0, m1, m2, mi);
      if c != 0 { // never zero: c % m1 == x
        S := S[e := c];
      }
      todo := todo - {e};
    }
  }

  /** The combination is unique: any two Chinese remainders of A and B coincide. */
  lemma CrtUnique(S: SPoly, S': SPoly, A: SPoly, B: SPoly, m1: int, m2: int, mi: int)
    requires m1 > 0 && m2 > 0 && (m1 * mi) % m2 == 1
    requires IsCrt(S, A, B, m1, m2) && IsCrt(S', A, B, m1, m2)
    ensures S == S'
  {
    forall e | e in S ensures S[e] == S'[e] {
      CrtCoefficientUnique(S[e], S'[e], m1, m2, mi);
    }
  }

  /** Two residues modulo m1*m2 that agree modulo m1 and modulo m2 are equal. */
  lemma CrtCoefficientUnique(a: int, b: int, m1: int, m2: int, mi: int)
    requires m1 > 0 && m2 > 0 && (m1 * mi) % m2 == 1
    requires 0 <= a < m1 * m2 && 0 <= b < m1 * m2 && a % m1 == b % m1 && a % m2 == b % m2
    ensures a == b
  {
    var k := (a - b) / m1;
    DivModSplit(a, b, m1);
    ModSubEqual(a, b, m2);
    // m2 | m1 * k and m1 is invertible modulo m2, so m2 | k; as |k| < m2, k == 0
    UnitCancels(k, m1, m2, mi);
    SmallMultiple(a, b, k, m1, m2);
  }

  lemma DivModSplit(a: int, b: int, m: int)
    requires m > 0 && a % m == b % m
    ensures a - b == m * ((a - b) / m) && (a - b) % m == 0
  {
    var qa, qb := a / m, b / m;
    assert a - b == m * (qa - qb);
    DivModUnique(a - b, m, qa - qb, 0);
  }

  lemma ModSubEqual(a: int, b: int, m: int)
    requires m > 0 && a % m == b % m
    ensures Divides(m, a - b)
  {
    DivModSplit(a, b, m);
  }

  lemma SmallMultiple(a: int, b: int, k: int, m1: int, m2: int)
    requires m1 > 0 && m2 > 0 && 0 <= a < m1 * m2 && 0 <= b < m1 * m2 && a - b == m1 * k
    requires Divides(m2, k)
    ensures k == 0
  {
    var j := DividesQuotient(m2, k);
    assert a - b == (m1 * m2) * j;
    MulAwayFromZero(m1 * m2, j);
  }
}
