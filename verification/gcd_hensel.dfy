/**
  GreatestCommonDivisorHensel.baseGcd: the gcd of two univariate integer polynomials,
  found by reducing modulo a prime, taking the modular gcd, Hensel-lifting it back to the
  integers and checking the candidate by pseudo-division, with the subresultant gcd of the
  superclass as the fallback.

  The integer-polynomial operations the driver performs itself (content, primitive part,
  sign normalisation, leading coefficient, max-norm) are defined here exactly. The
  operations of the polynomial library whose code is not part of this model (the modular
  gcd, division and extended gcd, the quadratic lift, the pseudo-remainder and the
  subresultant gcd) are the fields of a `Library` value; the linear lift is
  HenselLift.LiftHensel. The prime list is a function from the trial index to a prime.
*/
module HenselGcd {
  import opened Numbers
  import opened Univariate
  import opened Outcomes
  import HenselLift

  function AbsInt(x: int): nat
  {
    if x < 0 then -x else x
  }

  lemma DividesAbs(d: int, x: int)
    ensures Divides(d, x) <==> Divides(d, AbsInt(x))
  {
    if x < 0 {
      if Divides(d, x) { DividesLinear(d, x, 0, -1, 0); }
      if Divides(d, -x) { DividesLinear(d, -x, 0, -1, 0); }
    }
  }

  // ---------------------------------------------------------------------------------
  // Content and primitive part

  /** baseContent: the gcd of the coefficient magnitudes; 0 for the zero polynomial. */
  function Content(a: Poly): nat
  {
    if |a| == 0 then 0 else Gcd(AbsInt(a[0]), Content(a[1..]))
  }

  /** The content divides every coefficient. */
  lemma {:induction false} ContentDivides(a: Poly)
    ensures forall i :: 0 <= i < |a| ==> Divides(Content(a), a[i])
  {
    if |a| > 0 {
      var g, t := Content(a), Content(a[1..]);
      ContentDivides(a[1..]);
      GcdDivides(AbsInt(a[0]), t);
      DividesAbs(g, a[0]);
      forall i | 1 <= i < |a| ensures Divides(g, a[i]) {
        assert a[i] == a[1..][i - 1];
        DividesTrans(g, t, a[i]);
      }
    }
  }

  /** Every common divisor of the coefficients divides the content. */
  lemma {:induction false} ContentGreatest(a: Poly, d: int)
    requires forall i :: 0 <= i < |a| ==> Divides(d, a[i])
    ensures Divides(d, Content(a))
  {
    if |a| > 0 {
      forall i | 0 <= i < |a| - 1 ensures Divides(d, a[1..][i]) {
        assert a[1..][i] == a[i + 1];
      }
      ContentGreatest(a[1..], d);
      DividesAbs(d, a[0]);
      GcdGreatest(AbsInt(a[0]), Content(a[1..]), d);
    }
  }

  /** The content vanishes exactly on the zero polynomial. */
  lemma {:induction false} ContentZero(a: Poly)
    ensures Content(a) == 0 <==> IsZero(a)
  {
    if |a| > 0 {
      ContentZero(a[1..]);
      if AbsInt(a[0]) > 0 || Content(a[1..]) > 0 {
        GcdPositive(AbsInt(a[0]), Content(a[1..]));
      }
      assert IsZero(a) <==> a[0] == 0 && IsZero(a[1..]) by {
        if a[0] == 0 && IsZero(a[1..]) {
          forall i | 1 <= i < |a| ensures a[i] == 0 {
            assert a[i] == a[1..][i - 1];
          }
        }
      }
    }
  }

  /** The content only sees coefficient magnitudes. */
  lemma {:induction false} ContentOfMagnitudes(a: Poly, b: Poly)
    requires |a| == |b| && forall i :: 0 <= i < |a| ==> AbsInt(a[i]) == AbsInt(b[i])
    ensures Content(a) == Content(b)
  {
    if |a| > 0 {
      forall i | 0 <= i < |a| - 1 ensures AbsInt(a[1..][i]) == AbsInt(b[1..][i]) {
        assert a[1..][i] == a[i + 1] && b[1..][i] == b[i + 1];
      }
      ContentOfMagnitudes(a[1..], b[1..]);
    }
  }

  /** Scaling by k >= 0 scales the content by k. */
  lemma {:induction false} ContentScales(k: nat, a: Poly)
    ensures Content(Scale(k, a)) == k * Content(a)
  {
    if |a| > 0 {
      var s := Scale(k, a);
      assert s[1..] == Scale(k, a[1..]) by {
        forall i | 0 <= i < |a| - 1 ensures s[1..][i] == Scale(k, a[1..])[i] {
          assert s[1..][i] == Coef(s, i + 1) && Scale(k, a[1..])[i] == Coef(Scale(k, a[1..]), i);
        }
      }
      assert s[0] == Coef(s, 0) == k * a[0];
      assert AbsInt(s[0]) == k * AbsInt(a[0]);
      ContentScales(k, a[1..]);
      GcdScales(k, AbsInt(a[0]), Content(a[1..]));
    }
  }

  /** basePrimitivePart: the polynomial divided by its content. */
  function PrimitivePart(a: Poly): (pp: Poly)
    ensures Content(a) <= 1 ==> pp == a
  {
    if IsZero(a) then a
    else
      ContentZero(a);
      DivCoefsOne(a);
      DivCoefs(a, Content(a))
  }

  /** A polynomial is its content times its primitive part. */
  lemma PrimitivePartFactors(a: Poly)
    ensures Scale(Content(a), PrimitivePart(a)) == a
  {
    ContentZero(a);
    ContentDivides(a);
    var g, pp := Content(a), PrimitivePart(a);
    forall i | 0 <= i < |a| ensures Scale(g, pp)[i] == a[i] {
      assert Scale(g, pp)[i] == Coef(Scale(g, pp), i) == g * Coef(pp, i);
      if g > 0 {
        JavaDivExact(a[i], g);
      }
    }
  }

  /**
    Dividing out the content keeps which coefficients vanish and their signs, hence the
    degree and the sign of the leading coefficient.
  */
  lemma PrimitivePartShape(a: Poly)
    ensures |PrimitivePart(a)| == |a|
    ensures IsZero(PrimitivePart(a)) <==> IsZero(a)
    ensures Degree(PrimitivePart(a)) == Degree(a)
    ensures Lc(PrimitivePart(a)) > 0 <==> Lc(a) > 0
  {
    var pp := PrimitivePart(a);
    if !IsZero(a) {
      var g := Content(a);
      PrimitivePartFactors(a);
      ContentZero(a);
      forall i | 0 <= i < |a| ensures (pp[i] == 0 <==> a[i] == 0) && (pp[i] > 0 <==> a[i] > 0) {
        assert a[i] == Coef(Scale(g, pp), i) == g * pp[i];
        MulAwayFromZero(g, pp[i]);
      }
      SamePatternDegree(pp, a);
    }
  }

  /** The primitive part of a nonzero polynomial has content 1. */
  lemma PrimitivePartIsPrimitive(a: Poly)
    requires !IsZero(a)
    ensures Content(PrimitivePart(a)) == 1
  {
    var g, pp := Content(a), PrimitivePart(a);
    var h := Content(pp);
    ContentZero(a);
    PrimitivePartShape(a);
    ContentZero(pp);
    ContentTimesDivides(a, g, pp, h);
    ContentGreatest(a, h * g);
    UnitFromDivides(g, h);
  }

  /** h * g divides every coefficient of a == g * pp when h divides every coefficient of pp. */
  lemma ContentTimesDivides(a: Poly, g: nat, pp: Poly, h: nat)
    requires g == Content(a) && pp == PrimitivePart(a) && h == Content(pp)
    ensures forall i :: 0 <= i < |a| ==> Divides(h * g, a[i])
  {
    PrimitivePartFactors(a);
    ContentDivides(pp);
    forall i | 0 <= i < |a| ensures Divides(h * g, a[i]) {
      ScaledDivides(g, pp, h, i);
    }
  }

  lemma ScaledDivides(g: int, pp: Poly, h: int, i: int)
    requires 0 <= i < |pp| && Divides(h, pp[i])
    ensures Divides(h * g, Scale(g, pp)[i])
  {
    assert Scale(g, pp)[i] == Coef(Scale(g, pp), i) == pp[i] * g;
    DividesTimes(h, pp[i], g);
  }

  lemma UnitFromDivides(g: int, h: int)
    requires g > 0 && h > 0 && Divides(h * g, g)
    ensures h == 1
  {
    DividesBound(h * g, g);
    MulAwayFromZero(g, h - 1);
  }

  // ---------------------------------------------------------------------------------
  // Sign normalisation, norms, predicates

  /**
    GenPolynomial.abs: of a and its negation, the one whose leading base coefficient is not
    negative.
  */
  function Abs(a: Poly): (b: Poly)
    ensures b == a || b == Scale(-1, a)
    ensures Lc(b) >= 0
  {
    if Lc(a) < 0 then ScaleKeepsDegree(-1, a); Scale(-1, a) else a
  }

  /** Scaling by a nonzero k keeps the degree and scales the leading coefficient. */
  lemma ScaleKeepsDegree(k: int, a: Poly)
    requires k != 0
    ensures IsZero(Scale(k, a)) <==> IsZero(a)
    ensures Degree(Scale(k, a)) == Degree(a)
    ensures Lc(Scale(k, a)) == k * Lc(a)
  {
    var s := Scale(k, a);
    forall i | 0 <= i < |a| ensures s[i] == 0 <==> a[i] == 0 {
      assert s[i] == Coef(s, i) == k * a[i];
    }
    SamePatternDegree(s, a);
  }

  /**
    abs makes the leading coefficient its magnitude, and keeps zero-ness, degree and
    content.
  */
  lemma AbsNormalises(a: Poly)
    ensures Lc(Abs(a)) == AbsInt(Lc(a))
    ensures IsZero(Abs(a)) <==> IsZero(a)
    ensures Degree(Abs(a)) == Degree(a)
    ensures Content(Abs(a)) == Content(a)
  {
    if Lc(a) < 0 {
      ScaleKeepsDegree(-1, a);
      var b := Abs(a);
      forall i | 0 <= i < |a| ensures AbsInt(b[i]) == AbsInt(a[i]) {
        assert b[i] == Coef(b, i) == -a[i];
      }
      ContentOfMagnitudes(b, a);
    }
  }

  /** maxNorm: the largest coefficient magnitude. */
  function MaxNorm(a: Poly): (n: nat)
    ensures forall i :: 0 <= i < |a| ==> AbsInt(a[i]) <= n
  {
    if |a| == 0 then 0
    else
      var t := MaxNorm(a[1..]);
      assert forall i :: 1 <= i < |a| ==> a[i] == a[1..][i - 1];
      if AbsInt(a[0]) < t then t else AbsInt(a[0])
  }

  /** The max-norm is the magnitude of some coefficient (0 when there is none). */
  lemma {:induction false} MaxNormAttained(a: Poly)
    ensures MaxNorm(a) == 0 || exists i :: 0 <= i < |a| && AbsInt(a[i]) == MaxNorm(a)
  {
    if |a| > 0 && AbsInt(a[0]) < MaxNorm(a[1..]) {
      MaxNormAttained(a[1..]);
      var i :| 0 <= i < |a| - 1 && AbsInt(a[1..][i]) == MaxNorm(a[1..]);
      assert a[1..][i] == a[i + 1];
    }
  }

  /** isONE: the constant polynomial 1. */
  predicate IsOne(a: Poly)
  {
    Degree(a) == 0 && Coef(a, 0) == 1
  }

  /** isConstant: a nonzero polynomial of degree 0, so its only nonzero coefficient is the first. */
  predicate IsConstant(a: Poly): (b: bool)
    ensures b <==> Coef(a, 0) != 0 && forall i: nat :: 0 < i ==> Coef(a, i) == 0
  {
    assert Coef(a, 0) != 0 ==> a[0] != 0 && !IsZero(a) && Coef(a, Degree(a)) != 0;
    !IsZero(a) && Degree(a) == 0
  }

  // ---------------------------------------------------------------------------------
  // The driver's specification

  /**
    The operations of the polynomial library that baseGcd calls and whose code is not part
    of this model. Results over Z/p are reduced into [0, p) by the driver, which is what
    a ModInteger coefficient always is.
  */
  datatype Library = Library(
    modGcd: (Poly, Poly, int) -> Poly,                 // gcd over Z/p
    modDivide: (Poly, Poly, int) -> Poly,              // exact quotient over Z/p
    modEgcd: (Poly, Poly, int) -> (Poly, Poly, Poly),  // [g, s, t] with s*a + t*b == g over Z/p
    quadraticLift: (Poly, int, Poly, Poly, Poly, Poly, int) -> Result<(Poly, Poly)>,
    pseudoRemainder: (Poly, Poly) -> Poly,             // basePseudoRemainder
    subresultantGcd: (Poly, Poly) -> Poly)             // GreatestCommonDivisorSubres.baseGcd

  /** How a round of the prime loop that passed the admissibility tests ends. */
  datatype Attempt =
    | ConstantGcd              // the modular gcd is constant
    | NoUnitCofactor           // neither cofactor has extended gcd 1 with the modular gcd
    | LiftFailed(msg: string)  // the Hensel lift raised an error
    | Candidate(h: Poly)       // the rebuilt candidate abs(c * pp(lift[0]))

  const NotUnivariateMsg := "edu.jas.ufd.GreatestCommonDivisorHensel no univariate polynomial"

  /** The number of primes the driver draws before it falls back; the last one is not tried. */
  const PrimeBudget := 50

  /**
    The normalised operands (q, r) the prime loop starts from: the operand of larger
    degree first (P on a tie), each made sign-normal by abs and divided by its content.
    For nonzero inputs both are primitive with positive leading coefficients.
  */
  function Operands(P: Poly, S: Poly): (o: (Poly, Poly))
    ensures !IsZero(P) && !IsZero(S) ==>
              && Degree(o.1) <= Degree(o.0) == Max(Degree(P), Degree(S))
              && Content(o.0) == 1 && Content(o.1) == 1
              && Lc(o.0) > 0 && Lc(o.1) > 0
  {
    var o := if Degree(S) > Degree(P) then (PrimitivePart(Abs(S)), PrimitivePart(Abs(P)))
             else (PrimitivePart(Abs(P)), PrimitivePart(Abs(S)));
    if IsZero(P) || IsZero(S) then o
    else
      Normalised(P);
      Normalised(S);
      o
  }

  /** The gcd of the two contents, by which every result is multiplied. */
  function ContentGcd(P: Poly, S: Poly): nat
  {
    Gcd(Content(P), Content(S))
  }

  /**
    A prime the loop does not skip for operands q and r: it divides neither
    gcd(lc r, lc q) nor either leading coefficient, and reducing modulo it keeps both
    degrees.
  */
  predicate Admissible(p: int, q: Poly, r: Poly)
  {
    && p > 0
    && Gcd(AbsInt(Lc(r)), AbsInt(Lc(q))) % p != 0
    && Lc(q) % p != 0
    && Lc(r) % p != 0
    && Degree(Reduce(q, p)) == Degree(q)
    && Degree(Reduce(r, p)) == Degree(r)
  }

  /** A candidate the loop accepts: both inputs leave pseudo-remainder zero. */
  predicate DividesBoth(lib: Library, P: Poly, S: Poly, g: Poly)
  {
    IsZero(lib.pseudoRemainder(P, g)) && IsZero(lib.pseudoRemainder(S, g))
  }

  /** cm: the modular gcd of the reductions qm and rm, over Z/p. */
  function ModularGcd(lib: Library, qm: Poly, rm: Poly, p: int): Poly
    requires p > 0
  {
    Reduce(lib.modGcd(qm, rm, p), p)
  }

  /**
    The cofactor xmf = xm/cm over Z/p and the extended gcd [g, s, t] of cm and xmf,
    as (xmf, g, s, t).
  */
  function CofactorEgcd(lib: Library, xm: Poly, cm: Poly, p: int): (Poly, Poly, Poly, Poly)
    requires p > 0
  {
    var xmf := Reduce(lib.modDivide(xm, cm, p), p);
    var e := lib.modEgcd(cm, xmf, p);
    (xmf, Reduce(e.0, p), Reduce(e.1, p), Reduce(e.2, p))
  }

  /** The cofactor of cm in xm and cm have extended gcd 1. */
  predicate UnitCofactor(lib: Library, xm: Poly, cm: Poly, p: int)
    requires p > 0
  {
    IsOne(CofactorEgcd(lib, xm, cm, p).1)
  }

  /**
    The arguments of the lift for the reductions qm, rm of q, r: the operand crq whose
    cofactor has a unit Bezout relation with cm (r first, then q), the modular gcd cm, the
    cofactor and the Bezout coefficients, as (crq, cm, cmf, sm, tm).
  */
  function LiftInputs(lib: Library, q: Poly, r: Poly, qm: Poly, rm: Poly, p: int)
    : (Poly, Poly, Poly, Poly, Poly)
    requires p > 0
  {
    var cm := ModularGcd(lib, qm, rm, p);
    var (crq, xm) := if UnitCofactor(lib, rm, cm, p) then (r, rm) else (q, qm);
    var e := CofactorEgcd(lib, xm, cm, p);
    (crq, cm, e.0, e.2, e.3)
  }

  /** The coefficient bound handed to the lift: 2*maxNorm(crq)*|lc(crq)|. */
  function CoefficientBound(crq: Poly): int
  {
    2 * MaxNorm(crq) * AbsInt(Lc(crq))
  }

  /** The order in which the driver multiplies out the bound does not matter. */
  lemma BoundArith(n: int, l: int)
    ensures n * l * 2 == 2 * n * l
  {
  }

  /**
    The Hensel lift of the round at p for (q, r) with reductions qm, rm: the library's
    quadratic lift, or the linear lift of PolyUtil.liftHensel, of the lift inputs with
    the bound 2*maxNorm(crq)*|lc(crq)|.
  */
  ghost function RoundLift(lib: Library, quadratic: bool, q: Poly, r: Poly, qm: Poly, rm: Poly,
                           p: int, nvar: nat): Result<(Poly, Poly)>
    requires IsPrime(p)
  {
    var (crq, cm, cmf, sm, tm) := LiftInputs(lib, q, r, qm, rm, p);
    var cn := CoefficientBound(crq);
    if quadratic then lib.quadraticLift(crq, cn, cm, cmf, sm, tm, p)
    else HenselLift.LinearLift(crq, cn, cm, cmf, sm, tm, p, nvar)
  }

  /**
    How the round at p for (q, r) with reductions qm, rm ends before the pseudo-division
    test: a constant modular gcd, no cofactor with a unit Bezout relation, the lift's
    error, or the candidate abs(c * pp(lift[0])).
  */
  ghost function RoundAttempt(lib: Library, quadratic: bool, q: Poly, r: Poly, qm: Poly, rm: Poly,
                              c: int, p: int, nvar: nat): Attempt
    requires IsPrime(p)
  {
    var cm := ModularGcd(lib, qm, rm, p);
    if IsConstant(cm) then ConstantGcd
    else if !UnitCofactor(lib, rm, cm, p) && !UnitCofactor(lib, qm, cm, p) then NoUnitCofactor
    else match RoundLift(lib, quadratic, q, r, qm, rm, p, nvar)
      case Err(msg) => LiftFailed(msg)
      case Ok(f) => Candidate(Abs(Scale(c, PrimitivePart(f.0))))
  }

  /** A round ends the prime loop unless it yields a candidate failing the pseudo-division test. */
  predicate Ends(lib: Library, P: Poly, S: Poly, a: Attempt)
  {
    !a.Candidate? || DividesBoth(lib, P, S, a.h)
  }

  /** The result of a round that ends the prime loop. */
  function Verdict(lib: Library, P: Poly, S: Poly, c: int, a: Attempt): Result<Poly>
  {
    match a
    case ConstantGcd => Ok([c])
    case NoUnitCofactor => Ok(lib.subresultantGcd(P, S))
    case LiftFailed(msg) => Err(msg)
    case Candidate(h) => Ok(h)
  }

  /** The round at p for (q, r) decides g whenever it ends the loop. */
  ghost predicate RoundDecides(lib: Library, quadratic: bool, q: Poly, r: Poly, c: int, nvar: nat,
                               P: Poly, S: Poly, g: Result<Poly>, p: int)
  {
    IsPrime(p) ==>
      var a := RoundAttempt(lib, quadratic, q, r, Reduce(q, p), Reduce(r, p), c, p, nvar);
      Ends(lib, P, S, a) ==> g == Verdict(lib, P, S, c, a)
  }

  /**
    The tests of the prime loop that keep p for q and r: p divides neither cc nor the
    leading coefficients, and the reductions keep the degrees qdeg and rdeg.
  */
  predicate Kept(q: Poly, r: Poly, cc: int, qdeg: int, rdeg: int, p: int)
  {
    && p > 0
    && cc % p != 0 && Lc(q) % p != 0 && Lc(r) % p != 0
    && Degree(Reduce(q, p)) == qdeg && Degree(Reduce(r, p)) == rdeg
  }

  /**
    What the prime loop returns from trial index i with current operand q: the
    subresultant gcd once the budget is spent, the next index for a prime that is not
    kept, the verdict of a round that ends the loop, and otherwise the next index with
    the candidate in place of q.
  */
  ghost function LoopResult(lib: Library, quadratic: bool, primes: nat -> int, P: Poly, S: Poly,
                            q: Poly, r: Poly, cc: int, qdeg: int, rdeg: int, c: int, nvar: nat,
                            i: nat): Result<Poly>
    requires forall k :: IsPrime(primes(k))
    decreases PrimeBudget - i
  {
    if i + 1 >= PrimeBudget then Ok(lib.subresultantGcd(P, S))
    else
      var p := primes(i);
      if !Kept(q, r, cc, qdeg, rdeg, p) then
        LoopResult(lib, quadratic, primes, P, S, q, r, cc, qdeg, rdeg, c, nvar, i + 1)
      else
        var a := RoundAttempt(lib, quadratic, q, r, Reduce(q, p), Reduce(r, p), c, p, nvar);
        if Ends(lib, P, S, a) then Verdict(lib, P, S, c, a)
        else LoopResult(lib, quadratic, primes, P, S, a.h, r, cc, qdeg, rdeg, c, nvar, i + 1)
  }

  /** k is the first trial index whose prime passes the tests for (q, r), and the loop reaches it. */
  predicate FirstAdmissible(primes: nat -> int, q: Poly, r: Poly, k: nat)
  {
    && k < PrimeBudget - 1
    && Admissible(primes(k), q, r)
    && forall j :: 0 <= j < k ==> !Admissible(primes(j), q, r)
  }

  /**
    The outcome g of the prime loop from operands (q0, r) follows the first admissible
    prime whenever its round ends the loop: a constant modular gcd there gives the
    constant c, no unit cofactor the subresultant gcd, a failed lift its error, and a
    candidate that divides both inputs is g, whatever the primes skipped before it.
  */
  ghost predicate FirstRoundDecides(lib: Library, quadratic: bool, primes: nat -> int, q0: Poly,
                                    r: Poly, c: int, nvar: nat, P: Poly, S: Poly, g: Result<Poly>)
  {
    forall k :: FirstAdmissible(primes, q0, r, k) ==>
      RoundDecides(lib, quadratic, q0, r, c, nvar, P, S, g, primes(k))
  }

  /** One step of the prime loop at trial index i within the budget. */
  lemma LoopUnfolds(lib: Library, quadratic: bool, primes: nat -> int, P: Poly, S: Poly,
                    q: Poly, r: Poly, cc: int, qdeg: int, rdeg: int, c: int, nvar: nat, i: nat)
    requires forall k :: IsPrime(primes(k))
    requires i + 1 < PrimeBudget
    ensures !Kept(q, r, cc, qdeg, rdeg, primes(i)) ==>
              LoopResult(lib, quadratic, primes, P, S, q, r, cc, qdeg, rdeg, c, nvar, i) ==
              LoopResult(lib, quadratic, primes, P, S, q, r, cc, qdeg, rdeg, c, nvar, i + 1)
    ensures Kept(q, r, cc, qdeg, rdeg, primes(i)) ==>
              var p := primes(i);
              var a := RoundAttempt(lib, quadratic, q, r, Reduce(q, p), Reduce(r, p), c, p, nvar);
              && (Ends(lib, P, S, a) ==>
                    LoopResult(lib, quadratic, primes, P, S, q, r, cc, qdeg, rdeg, c, nvar, i) ==
                    Verdict(lib, P, S, c, a))
              && (!Ends(lib, P, S, a) ==>
                    LoopResult(lib, quadratic, primes, P, S, q, r, cc, qdeg, rdeg, c, nvar, i) ==
                    LoopResult(lib, quadratic, primes, P, S, a.h, r, cc, qdeg, rdeg, c, nvar, i + 1))
  {
  }

  /** With cc, qdeg and rdeg taken from q and r, the loop keeps exactly the admissible primes. */
  lemma KeptExactly(q: Poly, r: Poly, p: int)
    ensures Kept(q, r, Gcd(AbsInt(Lc(r)), AbsInt(Lc(q))), Degree(q), Degree(r), p) <==> Admissible(p, q, r)
  {
  }

  /**
    Up to the first admissible index k the loop skips every prime and keeps q0, so its
    result from any index i <= k follows the round at primes(k).
  */
  lemma {:induction false} LoopFollowsFirstRound(lib: Library, quadratic: bool, primes: nat -> int,
                                                 P: Poly, S: Poly, q0: Poly, r: Poly, c: int,
                                                 nvar: nat, i: nat, k: nat)
    requires forall k :: IsPrime(primes(k))
    requires FirstAdmissible(primes, q0, r, k) && i <= k
    ensures RoundDecides(lib, quadratic, q0, r, c, nvar, P, S,
                         LoopResult(lib, quadratic, primes, P, S, q0, r, Gcd(AbsInt(Lc(r)), AbsInt(Lc(q0))), Degree(q0), Degree(r), c, nvar, i), primes(k))
    decreases k - i
  {
    if i < k {
      SkipsInadmissible(lib, quadratic, primes, P, S, q0, r, c, nvar, i);
      LoopFollowsFirstRound(lib, quadratic, primes, P, S, q0, r, c, nvar, i + 1, k);
    } else {
      RoundAtAdmissible(lib, quadratic, primes, P, S, q0, r, c, nvar, k);
    }
  }

  /** At a trial index whose prime is not admissible the loop moves on with q0 unchanged. */
  lemma SkipsInadmissible(lib: Library, quadratic: bool, primes: nat -> int,
                          P: Poly, S: Poly, q0: Poly, r: Poly, c: int, nvar: nat, i: nat)
    requires forall k :: IsPrime(primes(k))
    requires i + 1 < PrimeBudget && !Admissible(primes(i), q0, r)
    ensures LoopResult(lib, quadratic, primes, P, S, q0, r, Gcd(AbsInt(Lc(r)), AbsInt(Lc(q0))), Degree(q0), Degree(r), c, nvar, i) == LoopResult(lib, quadratic, primes, P, S, q0, r, Gcd(AbsInt(Lc(r)), AbsInt(Lc(q0))), Degree(q0), Degree(r), c, nvar, i + 1)
  {
    KeptExactly(q0, r, primes(i));
  }

  /** At an admissible prime within the budget, a round that ends the loop gives its verdict. */
  lemma RoundAtAdmissible(lib: Library, quadratic: bool, primes: nat -> int,
                          P: Poly, S: Poly, q0: Poly, r: Poly, c: int, nvar: nat, k: nat)
    requires forall k :: IsPrime(primes(k))
    requires k + 1 < PrimeBudget && Admissible(primes(k), q0, r)
    ensures RoundDecides(lib, quadratic, q0, r, c, nvar, P, S, LoopResult(lib, quadratic, primes, P, S, q0, r, Gcd(AbsInt(Lc(r)), AbsInt(Lc(q0))), Degree(q0), Degree(r), c, nvar, k), primes(k))
  {
    KeptExactly(q0, r, primes(k));
  }

  /** Without an admissible prime from index i on, the loop ends in the subresultant gcd. */
  lemma {:induction false} LoopWithoutAdmissible(lib: Library, quadratic: bool, primes: nat -> int,
                                                 P: Poly, S: Poly, q0: Poly, r: Poly, c: int,
                                                 nvar: nat, i: nat)
    requires forall k :: IsPrime(primes(k))
    requires forall k :: i <= k < PrimeBudget - 1 ==> !Admissible(primes(k), q0, r)
    ensures LoopResult(lib, quadratic, primes, P, S, q0, r, Gcd(AbsInt(Lc(r)), AbsInt(Lc(q0))), Degree(q0), Degree(r), c, nvar, i) == Ok(lib.subresultantGcd(P, S))
    decreases PrimeBudget - i
  {
    if i + 1 < PrimeBudget {
      SkipsInadmissible(lib, quadratic, primes, P, S, q0, r, c, nvar, i);
      LoopWithoutAdmissible(lib, quadratic, primes, P, S, q0, r, c, nvar, i + 1);
    }
  }

  /**
    The prime loop from (q0, r) follows its first admissible prime whenever that round
    ends the loop, and falls back to the subresultant gcd when no prime tried is admissible.
  */
  lemma LoopDecidedByFirstRound(lib: Library, quadratic: bool, primes: nat -> int,
                                P: Poly, S: Poly, q0: Poly, r: Poly, c: int, nvar: nat)
    requires forall k :: IsPrime(primes(k))
    ensures FirstRoundDecides(lib, quadratic, primes, q0, r, c, nvar, P, S, LoopResult(lib, quadratic, primes, P, S, q0, r, Gcd(AbsInt(Lc(r)), AbsInt(Lc(q0))), Degree(q0), Degree(r), c, nvar, 0))
    ensures (forall k :: 0 <= k < PrimeBudget - 1 ==> !Admissible(primes(k), q0, r)) ==>
              LoopResult(lib, quadratic, primes, P, S, q0, r, Gcd(AbsInt(Lc(r)), AbsInt(Lc(q0))), Degree(q0), Degree(r), c, nvar, 0) == Ok(lib.subresultantGcd(P, S))
  {
    forall k | FirstAdmissible(primes, q0, r, k)
      ensures RoundDecides(lib, quadratic, q0, r, c, nvar, P, S, LoopResult(lib, quadratic, primes, P, S, q0, r, Gcd(AbsInt(Lc(r)), AbsInt(Lc(q0))), Degree(q0), Degree(r), c, nvar, 0), primes(k))
    {
      LoopFollowsFirstRound(lib, quadratic, primes, P, S, q0, r, c, nvar, 0, k);
    }
    if forall k :: 0 <= k < PrimeBudget - 1 ==> !Admissible(primes(k), q0, r) {
      LoopWithoutAdmissible(lib, quadratic, primes, P, S, q0, r, c, nvar, 0);
    }
  }

  /** abs followed by the primitive part: content 1, same degree, positive leading coefficient. */
  lemma Normalised(a: Poly)
    requires !IsZero(a)
    ensures Content(PrimitivePart(Abs(a))) == 1
    ensures Degree(PrimitivePart(Abs(a))) == Degree(a)
    ensures Lc(PrimitivePart(Abs(a))) > 0
  {
    AbsNormalises(a);
    PrimitivePartShape(Abs(a));
    PrimitivePartIsPrimitive(Abs(a));
    assert Lc(a) != 0;
  }

  /** A nonzero residue of the leading coefficient keeps the degree of the reduction. */
  lemma ReductionKeepsDegree(a: Poly, p: int)
    requires p > 0 && Lc(a) % p != 0
    ensures Degree(Reduce(a, p)) == Degree(a)
  {
    var b := Reduce(a, p);
    var d := Degree(a);
    assert Coef(b, d) != 0;
    assert forall i: nat :: d < i ==> Coef(b, i) == 0 % p == 0;
  }

  /**
    For univariate operands only the two leading-coefficient tests decide whether a prime
    is admissible: the gcd test and the degree-vector tests never reject a prime they pass.
  */
  lemma AdmissibleExactly(p: int, q: Poly, r: Poly)
    requires p > 0
    ensures Admissible(p, q, r) <==> Lc(q) % p != 0 && Lc(r) % p != 0
  {
    if Lc(q) % p != 0 && Lc(r) % p != 0 {
      var cc := Gcd(AbsInt(Lc(r)), AbsInt(Lc(q)));
      if cc % p == 0 {
        GcdDivides(AbsInt(Lc(r)), AbsInt(Lc(q)));
        DividesTrans(p, cc, AbsInt(Lc(q)));
        DividesAbs(p, Lc(q));
      }
      ReductionKeepsDegree(q, p);
      ReductionKeepsDegree(r, p);
    }
  }

  /**
    The candidate abs(c * pp(x)) rebuilt from a lifted factor x: it is zero only for
    zero x, its leading coefficient is not negative, and its content is exactly c.
  */
  lemma CandidateNormalised(c: nat, x: Poly)
    requires c > 0
    ensures IsZero(Abs(Scale(c, PrimitivePart(x)))) <==> IsZero(x)
    ensures Lc(Abs(Scale(c, PrimitivePart(x)))) >= 0
    ensures !IsZero(x) ==> Content(Abs(Scale(c, PrimitivePart(x)))) == c
  {
    var pp := PrimitivePart(x);
    var s := Scale(c, pp);
    assert IsZero(Abs(s)) <==> IsZero(x) by {
      PrimitivePartShape(x);
      ScaleKeepsDegree(c, pp);
      AbsNormalises(s);
    }
    if !IsZero(x) {
      assert Content(Abs(s)) == c by {
        AbsNormalises(s);
        ContentScales(c, pp);
        PrimitivePartIsPrimitive(x);
      }
    }
  }

  /** The gcd of the contents does not depend on the order or the signs of the operands. */
  lemma ContentGcdNormalised(P: Poly, S: Poly)
    ensures Gcd(Content(Abs(P)), Content(Abs(S))) == ContentGcd(P, S)
    ensures Gcd(Content(Abs(S)), Content(Abs(P))) == ContentGcd(P, S)
  {
    AbsNormalises(P);
    AbsNormalises(S);
    GcdCommutes(Content(P), Content(S));
  }

  /** c times the polynomial 1 is the constant c. */
  lemma ScaleOne(c: int, a: Poly)
    requires IsOne(a)
    ensures Same(Scale(c, a), [c])
  {
    forall i: nat ensures Coef(Scale(c, a), i) == Coef([c], i) {
      if i > 0 {
        assert Coef(a, i) == 0;
      }
    }
  }

  // ---------------------------------------------------------------------------------
  // The driver

  /** GreatestCommonDivisorHensel: the gcd engine and its choice of Hensel lift. */
  class GcdHensel {
    /** Use the quadratic Hensel lift; otherwise the linear one. */
    const quadratic: bool

    /** The default engine lifts quadratically. */
    constructor ()
      ensures quadratic
    {
      quadratic := true;
    }

    constructor WithLift(quadratic: bool)
      ensures this.quadratic == quadratic
    {
      this.quadratic := quadratic;
    }

    /**
      baseGcd(P, S) for univariate integer polynomials; nvar is the number of variables
      of P's ring and primes(k) is the k-th prime of the prime list.
    */
    method BaseGcd(P: Poly, S: Poly, nvar: nat, primes: nat -> int, lib: Library)
      returns (g: Result<Poly>)
      requires forall k :: IsPrime(primes(k))
      ensures IsZero(S) ==> g == Ok(P)
      ensures !IsZero(S) && IsZero(P) ==> g == Ok(S)
      ensures !IsZero(P) && !IsZero(S) && nvar > 1 ==> g == Err(NotUnivariateMsg)
      // a primitive part equal to 1 makes the gcd the constant c
      ensures !IsZero(P) && !IsZero(S) && nvar <= 1 &&
              (IsOne(Operands(P, S).0) || IsOne(Operands(P, S).1)) ==>
                g.Ok? && Same(g.value, [ContentGcd(P, S)])
      // without an admissible prime among the ones tried, the subresultant gcd decides
      ensures !IsZero(P) && !IsZero(S) && nvar <= 1 &&
              !IsOne(Operands(P, S).0) && !IsOne(Operands(P, S).1) &&
              (forall k :: 0 <= k < PrimeBudget - 1 ==>
                 !Admissible(primes(k), Operands(P, S).0, Operands(P, S).1)) ==>
                g == Ok(lib.subresultantGcd(P, S))
      // the first admissible prime decides a constant gcd and the fallback; skipped primes count for nothing
      ensures !IsZero(P) && !IsZero(S) && nvar <= 1 &&
              !IsOne(Operands(P, S).0) && !IsOne(Operands(P, S).1) ==>
                FirstRoundDecides(lib, quadratic, primes, Operands(P, S).0, Operands(P, S).1, ContentGcd(P, S),
                                  nvar, P, S, g)
      // and the whole loop: every later round as well
      ensures !IsZero(P) && !IsZero(S) && nvar <= 1 &&
              !IsOne(Operands(P, S).0) && !IsOne(Operands(P, S).1) ==>
                var (q, r) := Operands(P, S);
                g == LoopResult(lib, quadratic, primes, P, S, q, r, Gcd(AbsInt(Lc(r)), AbsInt(Lc(q))),
                                Degree(q), Degree(r), ContentGcd(P, S), nvar, 0)
      // otherwise: the constant c, the fallback, or a verified normalised candidate
      ensures !IsZero(P) && !IsZero(S) && nvar <= 1 && g.Ok? ==>
                || Same(g.value, [ContentGcd(P, S)])
                || g.value == lib.subresultantGcd(P, S)
                || (&& DividesBoth(lib, P, S, g.value)
                    && Lc(g.value) >= 0
                    && (IsZero(g.value) || Content(g.value) == ContentGcd(P, S)))
      ensures g.Err? && !quadratic ==>
                g.msg in {NotUnivariateMsg, HenselLift.NonzeroFactorsMsg,
                          HenselLift.NotUnivariateMsg, HenselLift.DegreeMsg}
    {
      if IsZero(S) {
        return Ok(P);
      }
      if IsZero(P) {
        return Ok(S);
      }
      if nvar > 1 {
        return Err(NotUnivariateMsg);
      }
      var e, f := Degree(P), Degree(S);
      var q, r;
      if f > e {
        r, q := P, S;
        e, f := f, e;
      } else {
        q, r := P, S;
      }
      r := Abs(r);
      q := Abs(q);
      // compute contents and primitive parts
      var a, b := Content(r), Content(q);
      var c := Gcd(a, b);
      ContentGcdNormalised(P, S);
      AbsNormalises(P);
      AbsNormalises(S);
      ContentZero(P);
      ContentZero(S);
      GcdPositive(a, b);
      r := DivCoefs(r, a);
      q := DivCoefs(q, b);
      assert (q, r) == Operands(P, S);
      if IsOne(r) {
        ScaleOne(c, r);
        return Ok(Scale(c, r));
      }
      if IsOne(q) {
        ScaleOne(c, q);
        return Ok(Scale(c, q));
      }
      g := PrimeLoop(P, S, q, r, c, nvar, primes, lib);
    }

    /**
      The prime loop of baseGcd, from the normalised operands q0 (larger degree) and r and
      the content gcd c: each prime is drawn and counted, skipped when a test fails, and
      otherwise handed to LiftCandidate; a candidate that divides neither input by
      pseudo-division replaces q for the following rounds.
    */
    method PrimeLoop(P: Poly, S: Poly, q0: Poly, r: Poly, c: nat, nvar: nat,
                     primes: nat -> int, lib: Library)
      returns (g: Result<Poly>)
      requires forall k :: IsPrime(primes(k))
      requires c > 0
      ensures (forall k :: 0 <= k < PrimeBudget - 1 ==> !Admissible(primes(k), q0, r)) ==>
                g == Ok(lib.subresultantGcd(P, S))
      ensures FirstRoundDecides(lib, quadratic, primes, q0, r, c, nvar, P, S, g)
      ensures g == LoopResult(lib, quadratic, primes, P, S, q0, r, Gcd(AbsInt(Lc(r)), AbsInt(Lc(q0))),
                              Degree(q0), Degree(r), c, nvar, 0)
      ensures g.Ok? ==>
                || g.value == [c]
                || g.value == lib.subresultantGcd(P, S)
                || (&& DividesBoth(lib, P, S, g.value)
                    && Lc(g.value) >= 0
                    && (IsZero(g.value) || Content(g.value) == c))
      ensures g.Err? && !quadratic ==>
                g.msg in {HenselLift.NonzeroFactorsMsg, HenselLift.NotUnivariateMsg,
                          HenselLift.DegreeMsg}
    {
      var q := q0;
      // normalisation factor and degree vectors
      var ac, bc := Lc(r), Lc(q);
      var cc := Gcd(AbsInt(ac), AbsInt(bc));
      var rdeg, qdeg := Degree(r), Degree(q);
      var pn := PrimeBudget;
      var i := 0;
      ghost var target := LoopResult(lib, quadratic, primes, P, S, q0, r, cc, qdeg, rdeg, c, nvar, 0);
      while true
        invariant 0 <= i < pn
        invariant LoopResult(lib, quadratic, primes, P, S, q, r, cc, qdeg, rdeg, c, nvar, i) == target
        decreases pn - i
      {
        i := i + 1;
        if i >= pn {
          assert LoopResult(lib, quadratic, primes, P, S, q, r, cc, qdeg, rdeg, c, nvar, i - 1) ==
                 Ok(lib.subresultantGcd(P, S));
          LoopDecidedByFirstRound(lib, quadratic, primes, P, S, q0, r, c, nvar);
          return Ok(lib.subresultantGcd(P, S));
        }
        var done, next;
        done, g, next := TryPrime(P, S, q, r, cc, qdeg, rdeg, c, nvar, primes, i - 1, lib, target);
        if done {
          LoopDecidedByFirstRound(lib, quadratic, primes, P, S, q0, r, c, nvar);
          return;
        }
        q := next;
      }
    }

    /**
      The body of the prime loop for the prime at trial index i: the round at that prime
      when it is kept, and otherwise a step to the next prime with q unchanged. done says
      whether the loop ends, with g as its result; otherwise next is the operand that
      replaces q.
    */
    method TryPrime(P: Poly, S: Poly, q: Poly, r: Poly, cc: int, qdeg: int, rdeg: int, c: nat,
                    nvar: nat, primes: nat -> int, i: nat, lib: Library, ghost target: Result<Poly>)
      returns (done: bool, g: Result<Poly>, next: Poly)
      requires forall k :: IsPrime(primes(k))
      requires i + 1 < PrimeBudget && c > 0
      requires LoopResult(lib, quadratic, primes, P, S, q, r, cc, qdeg, rdeg, c, nvar, i) == target
      ensures done ==> g == target
      ensures !done ==> LoopResult(lib, quadratic, primes, P, S, next, r, cc, qdeg, rdeg, c, nvar, i + 1) == target
      ensures done && g.Ok? ==>
                || g.value == [c]
                || g.value == lib.subresultantGcd(P, S)
                || (&& DividesBoth(lib, P, S, g.value)
                    && Lc(g.value) >= 0
                    && (IsZero(g.value) || Content(g.value) == c))
      ensures done && g.Err? && !quadratic ==>
                g.msg in {HenselLift.NonzeroFactorsMsg, HenselLift.NotUnivariateMsg,
                          HenselLift.DegreeMsg}
    {
      var p := primes(i);
      LoopUnfolds(lib, quadratic, primes, P, S, q, r, cc, qdeg, rdeg, c, nvar, i);
      var skip, qm, rm := SkipPrime(q, r, cc, qdeg, rdeg, p);
      if skip {
        return false, Ok(q), q;
      }
      done, g, next := DecideRound(P, S, q, r, qm, rm, c, p, nvar, lib);
    }

    /**
      What the loop does with one round at a kept prime p: a constant modular gcd returns
      [c], a missing unit cofactor falls back to the subresultant gcd, a failed lift
      returns its error, and a candidate that leaves both pseudo-remainders zero is the
      result. Otherwise the round is not done and the candidate becomes the next q.
    */
    method DecideRound(P: Poly, S: Poly, q: Poly, r: Poly, qm: Poly, rm: Poly, c: nat, p: int,
                       nvar: nat, lib: Library)
      returns (done: bool, g: Result<Poly>, next: Poly)
      requires IsPrime(p) && c > 0
      requires qm == Reduce(q, p) && rm == Reduce(r, p)
      ensures var a := RoundAttempt(lib, quadratic, q, r, qm, rm, c, p, nvar);
                && (done <==> Ends(lib, P, S, a))
                && (done ==> g == Verdict(lib, P, S, c, a))
                && (!done ==> next == a.h)
      ensures !done ==>
                && !DividesBoth(lib, P, S, next)
                && Lc(next) >= 0 && (IsZero(next) || Content(next) == c)
      ensures done && g.Ok? ==>
                || g.value == [c]
                || g.value == lib.subresultantGcd(P, S)
                || (&& DividesBoth(lib, P, S, g.value)
                    && Lc(g.value) >= 0
                    && (IsZero(g.value) || Content(g.value) == c))
      ensures done && g.Err? && !quadratic ==>
                g.msg in {HenselLift.NonzeroFactorsMsg, HenselLift.NotUnivariateMsg,
                          HenselLift.DegreeMsg}
    {
      next := q;
      var attempt;
      ghost var crq, cn, lifted, rounds;
      attempt, crq, cn, lifted, rounds := LiftCandidate(q, r, qm, rm, c, p, nvar, lib);
      match attempt
      case ConstantGcd =>
        return true, Ok([c]), next;
      case NoUnitCofactor =>
        return true, Ok(lib.subresultantGcd(P, S)), next;
      case LiftFailed(msg) =>
        return true, Err(msg), next;
      case Candidate(h) =>
        next := h;
        if IsZero(lib.pseudoRemainder(P, next)) && IsZero(lib.pseudoRemainder(S, next)) {
          return true, Ok(next), next;
        }
        return false, Ok(next), next;
    }

    /**
      The tests that skip a prime p in the loop: p divides the normalisation factor cc
      or a leading coefficient, or reducing q or r modulo p lowers its degree. When p is
      kept, qm and rm are the reductions.
    */
    static method SkipPrime(q: Poly, r: Poly, cc: int, qdeg: int, rdeg: int, p: int)
      returns (skip: bool, qm: Poly, rm: Poly)
      requires p > 0
      ensures !skip <==>
                && cc % p != 0 && Lc(q) % p != 0 && Lc(r) % p != 0
                && Degree(Reduce(q, p)) == qdeg && Degree(Reduce(r, p)) == rdeg
      ensures cc == Gcd(AbsInt(Lc(r)), AbsInt(Lc(q))) && qdeg == Degree(q) && rdeg == Degree(r) ==>
                (skip <==> !Admissible(p, q, r))
      ensures !skip ==> qm == Reduce(q, p) && rm == Reduce(r, p)
      ensures !skip <==> Kept(q, r, cc, qdeg, rdeg, p)
    {
      skip, qm, rm := true, [], [];
      var nf := cc % p;
      if nf == 0 {
        return;
      }
      nf := Lc(q) % p;
      if nf == 0 {
        return;
      }
      nf := Lc(r) % p;
      if nf == 0 {
        return;
      }
      qm := Reduce(q, p);
      if Degree(qm) != qdeg {
        return;
      }
      rm := Reduce(r, p);
      if Degree(rm) != rdeg {
        return;
      }
      skip := false;
    }

    /**
      The cofactor of the round: rmf = rm/cm when cm and rmf have extended gcd 1, else
      qmf = qm/cm when cm and qmf do, with the operand it belongs to and the Bezout
      coefficients; `found` is false when neither does.
    */
    static method ChooseCofactor(q: Poly, r: Poly, qm: Poly, rm: Poly, cm: Poly, p: int, lib: Library)
      returns (found: bool, crq: Poly, cmf: Poly, sm: Poly, tm: Poly)
      requires p > 0 && cm == ModularGcd(lib, qm, rm, p)
      ensures found <==> UnitCofactor(lib, rm, cm, p) || UnitCofactor(lib, qm, cm, p)
      ensures found ==> (crq, cm, cmf, sm, tm) == LiftInputs(lib, q, r, qm, rm, p)
      ensures found && UnitCofactor(lib, rm, cm, p) ==> crq == r
      ensures found && !UnitCofactor(lib, rm, cm, p) ==> crq == q
    {
      found, crq, cmf, sm, tm := true, [], [], [], [];
      var rmf := Reduce(lib.modDivide(rm, cm, p), p);
      var ecm := lib.modEgcd(cm, rmf, p);
      if IsOne(Reduce(ecm.0, p)) {
        crq, cmf, sm, tm := r, rmf, Reduce(ecm.1, p), Reduce(ecm.2, p);
      } else {
        var qmf := Reduce(lib.modDivide(qm, cm, p), p);
        ecm := lib.modEgcd(cm, qmf, p);
        if IsOne(Reduce(ecm.0, p)) {
          crq, cmf, sm, tm := q, qmf, Reduce(ecm.1, p), Reduce(ecm.2, p);
        } else {
          found := false;
        }
      }
    }

    /**
      One round of the prime loop past the admissibility tests: the modular gcd cm of the
      reductions qm, rm of q and r modulo p; a cofactor whose extended gcd with cm is 1;
      the bound 2*maxNorm(crq)*|lc(crq)|; the Hensel lift; and the candidate
      abs(c * pp(lift[0])). The ghost outputs are the lifted operand crq, the bound, the
      lift's result and, for the linear lift, its number of rounds.
    */
    method LiftCandidate(q: Poly, r: Poly, qm: Poly, rm: Poly, c: nat, p: int, nvar: nat,
                         lib: Library)
      returns (attempt: Attempt, ghost crq: Poly, ghost cn: int,
               ghost lifted: Result<(Poly, Poly)>, ghost rounds: nat)
      requires IsPrime(p) && c > 0
      ensures attempt == RoundAttempt(lib, quadratic, q, r, qm, rm, c, p, nvar)
      ensures attempt.ConstantGcd? <==> IsConstant(ModularGcd(lib, qm, rm, p))
      ensures attempt.NoUnitCofactor? <==>
                && !IsConstant(ModularGcd(lib, qm, rm, p))
                && !UnitCofactor(lib, rm, ModularGcd(lib, qm, rm, p), p)
                && !UnitCofactor(lib, qm, ModularGcd(lib, qm, rm, p), p)
      // a round that reaches the lift: its operand, its bound and its arguments
      ensures attempt.LiftFailed? || attempt.Candidate? ==>
                var (crq', cm, cmf, sm, tm) := LiftInputs(lib, q, r, qm, rm, p);
                && crq == crq'
                && (UnitCofactor(lib, rm, cm, p) ==> crq == r)
                && (!UnitCofactor(lib, rm, cm, p) ==> crq == q && UnitCofactor(lib, qm, cm, p))
                && cn == CoefficientBound(crq)
                && (quadratic ==> lifted == lib.quadraticLift(crq, cn, cm, cmf, sm, tm, p))
                && (!quadratic && lifted.Ok? && !IsZero(crq) ==>
                      HenselLift.LiftedFactors(crq, cn, cm, cmf, sm, tm, p, rounds, lifted.value))
      ensures attempt.LiftFailed? ==> lifted.Err? && attempt.msg == lifted.msg
      ensures attempt.Candidate? ==> lifted.Ok? && attempt.h == Abs(Scale(c, PrimitivePart(lifted.value.0)))
      ensures attempt.Candidate? ==>
                Lc(attempt.h) >= 0 && (IsZero(attempt.h) || Content(attempt.h) == c)
      ensures attempt.LiftFailed? && !quadratic ==>
                attempt.msg in {HenselLift.NonzeroFactorsMsg, HenselLift.NotUnivariateMsg,
                                HenselLift.DegreeMsg}
    {
      crq, cn, lifted, rounds := [], 0, Err(""), 0;
      var cm := Reduce(lib.modGcd(qm, rm, p), p);
      if IsConstant(cm) {
        return ConstantGcd, crq, cn, lifted, rounds;
      }
      var found, xq, cmf, sm, tm := ChooseCofactor(q, r, qm, rm, cm, p, lib);
      if !found {
        return NoUnitCofactor, crq, cn, lifted, rounds;
      }
      crq := xq;
      attempt, cn, lifted, rounds := LiftRound(xq, cm, cmf, sm, tm, c, p, nvar, lib);
    }

    /**
      The end of a round from the chosen operand crq == cm*cmf modulo p with Bezout
      coefficients sm, tm: the bound 2*maxNorm(crq)*|lc(crq)|, the quadratic or linear
      lift, and the candidate abs(c * pp(lift[0])).
    */
    method LiftRound(crq: Poly, cm: Poly, cmf: Poly, sm: Poly, tm: Poly, c: nat, p: int, nvar: nat,
                     lib: Library)
      returns (attempt: Attempt, ghost cn: int, ghost lifted: Result<(Poly, Poly)>, ghost rounds: nat)
      requires IsPrime(p) && c > 0
      requires Reduced(cm, p) && Reduced(cmf, p) && Reduced(sm, p) && Reduced(tm, p)
      ensures attempt.LiftFailed? || attempt.Candidate?
      ensures cn == CoefficientBound(crq)
      ensures !quadratic ==> lifted == HenselLift.LinearLift(crq, cn, cm, cmf, sm, tm, p, nvar)
      ensures quadratic ==> lifted == lib.quadraticLift(crq, cn, cm, cmf, sm, tm, p)
      ensures !quadratic && lifted.Ok? && !IsZero(crq) ==>
                HenselLift.LiftedFactors(crq, cn, cm, cmf, sm, tm, p, rounds, lifted.value)
      ensures attempt.LiftFailed? ==> lifted.Err? && attempt.msg == lifted.msg
      ensures attempt.Candidate? ==> lifted.Ok? && attempt.h == Abs(Scale(c, PrimitivePart(lifted.value.0)))
      ensures attempt.Candidate? ==>
                Lc(attempt.h) >= 0 && (IsZero(attempt.h) || Content(attempt.h) == c)
      ensures attempt.LiftFailed? && !quadratic ==>
                attempt.msg in {HenselLift.NonzeroFactorsMsg, HenselLift.NotUnivariateMsg,
                                HenselLift.DegreeMsg}
    {
      rounds := 0;
      var bound := MaxNorm(crq);
      bound := bound * AbsInt(Lc(crq));
      bound := bound * 2;
      BoundArith(MaxNorm(crq), AbsInt(Lc(crq)));
      cn := bound;
      var lift: Result<(Poly, Poly)>;
      if quadratic {
        lift := lib.quadraticLift(crq, bound, cm, cmf, sm, tm, p);
      } else {
        ghost var failed;
        lift, rounds, failed := HenselLift.LiftHensel(crq, bound, cm, cmf, sm, tm, p, nvar);
      }
      lifted := lift;
      if lift.Err? {
        return LiftFailed(lift.msg), cn, lifted, rounds;
      }
      var h := PrimitivePart(lift.value.0);
      h := Abs(Scale(c, h));
      CandidateNormalised(c, lift.value.0);
      return Candidate(h), cn, lifted, rounds;
    }
  }
}
