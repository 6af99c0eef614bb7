/**
  PolyUtil's evaluation at the main variable, one-point interpolation, monic
  normalisation of a recursive polynomial and the factor coefficient bound.

  A univariate polynomial enters evaluateMain as its terms in the order its term map
  iterates them, exponents strictly decreasing; its coefficients are integers (the ring
  overload) or dense univariate polynomials (the recursive overload). Interpolation and
  monic work over Z/m: coefficients are residues in [0, m) and every operation reduces.
*/
module PolyUtil {
  import opened Numbers
  import opened Univariate
  import opened Outcomes

  const NotUnivariateEvalMsg := "evaluateMain no univariate polynomial"

  // ---------------------------------------------------------------------------------
  // evaluateMain

  /** Exponents strictly decreasing, as a univariate term map iterates them. */
  predicate Descending<C>(ts: seq<(nat, C)>)
  {
    forall i, j :: 0 <= i < j < |ts| ==> ts[i].0 > ts[j].0
  }

  /** The value of the terms at a: the sum of c * a^e. */
  function EvalTerms(ts: seq<(nat, int)>, a: int): int
  {
    if ts == [] then 0
    else EvalTerms(ts[..|ts| - 1], a) + ts[|ts| - 1].1 * Pow(a, ts[|ts| - 1].0)
  }

  /** trailingBaseCoefficient: the coefficient of exponent 0, zero when it is absent. */
  function Trailing<C>(ts: seq<(nat, C)>, zero: C): C
  {
    if ts != [] && ts[|ts| - 1].0 == 0 then ts[|ts| - 1].1 else zero
  }

  /** Terms of positive exponent vanish at 0. */
  lemma {:induction false} PositiveExponentsVanish(ts: seq<(nat, int)>)
    requires forall i :: 0 <= i < |ts| ==> ts[i].0 > 0
    ensures EvalTerms(ts, 0) == 0
  {
    if ts != [] {
      PositiveExponentsVanish(ts[..|ts| - 1]);
    }
  }

  /** The shortcut evaluateMain takes at a == 0 is the value at 0. */
  lemma TrailingIsValueAtZero(ts: seq<(nat, int)>)
    requires Descending(ts)
    ensures Trailing(ts, 0) == EvalTerms(ts, 0)
  {
    if ts != [] {
      var k := |ts| - 1;
      assert forall i :: 0 <= i < k ==> ts[..k][i].0 > ts[k].0 >= 0;
      PositiveExponentsVanish(ts[..k]);
    }
  }

  lemma HornerStep(b: int, a: int, d: nat, e: nat, c: int)
    ensures (b * Pow(a, d) + c) * Pow(a, e) == b * Pow(a, d + e) + c * Pow(a, e)
  {
    PowAdd(a, d, e);
    assert (b * Pow(a, d)) * Pow(a, e) == b * (Pow(a, d) * Pow(a, e));
  }

  lemma PowStep(b: int, a: int, n: nat)
    ensures b * Pow(a, n) * a == b * Pow(a, n + 1)
  {
    assert Pow(a, n + 1) == a * Pow(a, n);
  }

  /** Appending a term adds its value. */
  lemma EvalTermsPrefix(ts: seq<(nat, int)>, k: nat, a: int)
    requires k < |ts|
    ensures EvalTerms(ts[..k + 1], a) == EvalTerms(ts[..k], a) + ts[k].1 * Pow(a, ts[k].0)
  {
    assert ts[..k + 1][..k] == ts[..k];
  }

  /**
    evaluateMain over a coefficient ring: zero for the zero polynomial, an error when
    the ring has more than one variable, the trailing coefficient at a == 0, and
    otherwise Horner's rule over the decreasing exponents, which computes A(a).
  */
  method EvaluateMain(ts: seq<(nat, int)>, nvar: int, a: int) returns (r: Result<int>)
    requires Descending(ts)
    ensures ts == [] ==> r == Ok(0)
    ensures ts != [] && nvar != 1 ==> r == Err(NotUnivariateEvalMsg)
    ensures nvar == 1 ==> r == Ok(EvalTerms(ts, a))
  {
    if ts == [] {
      return Ok(0);
    }
    if nvar != 1 {
      return Err(NotUnivariateEvalMsg);
    }
    if a == 0 {
      TrailingIsValueAtZero(ts);
      return Ok(Trailing(ts, 0));
    }
    var B := 0;
    var el1: int := -1;
    var el2: int := -1;
    var k := 0;
    while k < |ts|
      invariant 0 <= k <= |ts|
      invariant k > 0 ==> el1 == el2 == ts[k - 1].0 && B * Pow(a, el2) == EvalTerms(ts[..k], a)
    {
      el2 := ts[k].0;
      EvalTermsPrefix(ts, k, a);
      if k == 0 { // first turn: B is still undefined
        B := ts[k].1;
      } else {
        ghost var B0 := B;
        var i := el2;
        while i < el1
          invariant el2 <= i <= el1
          invariant B == B0 * Pow(a, i - el2)
        {
          PowStep(B0, a, i - el2);
          B := B * a;
          i := i + 1;
        }
        HornerStep(B0, a, el1 - el2, el2, ts[k].1);
        B := B + ts[k].1;
      }
      el1 := el2;
      k := k + 1;
    }
    assert ts[..k] == ts;
    ghost var Bf := B;
    var i := 0;
    while i < el2
      invariant 0 <= i <= el2
      invariant B == Bf * Pow(a, i)
    {
      PowStep(Bf, a, i);
      B := B * a;
      i := i + 1;
    }
    return Ok(B);
  }

  /** The integer terms formed by the coefficients of x^j in polynomial-valued terms. */
  function CoefTerms(ts: seq<(nat, Poly)>, j: nat): (cs: seq<(nat, int)>)
    ensures |cs| == |ts|
    ensures forall i :: 0 <= i < |ts| ==> cs[i] == (ts[i].0, Coef(ts[i].1, j))
  {
    seq(|ts|, i requires 0 <= i < |ts| => (ts[i].0, Coef(ts[i].1, j)))
  }

  /**
    evaluateMain over a polynomial coefficient ring: the same Horner loop with scaling
    and polynomial sums. Coefficient by coefficient of the result it evaluates the
    corresponding integer terms, so it computes A(x_1, ..., x_{n-1}, a).
  */
  method EvaluateMainRecursive(ts: seq<(nat, Poly)>, nvar: int, a: int) returns (r: Result<Poly>)
    requires Descending(ts)
    ensures ts == [] ==> r == Ok([])
    ensures ts != [] && nvar != 1 ==> r == Err(NotUnivariateEvalMsg)
    ensures nvar == 1 ==> r.Ok? && forall j: nat :: Coef(r.value, j) == EvalTerms(CoefTerms(ts, j), a)
  {
    if ts == [] {
      return Ok([]);
    }
    if nvar != 1 {
      return Err(NotUnivariateEvalMsg);
    }
    if a == 0 {
      var t := Trailing(ts, []);
      TrailingCoefficientsAtZero(ts);
      return Ok(t);
    }
    var B: Poly := [];
    var el1: int := -1;
    var el2: int := -1;
    var k := 0;
    while k < |ts|
      invariant 0 <= k <= |ts|
      invariant k > 0 ==> el1 == el2 == ts[k - 1].0
      invariant k > 0 ==> forall j: nat :: Coef(B, j) * Pow(a, el2) == EvalTerms(CoefTerms(ts, j)[..k], a)
    {
      el2 := ts[k].0;
      if k == 0 { // first turn: B is still undefined
        B := ts[k].1;
        RecursiveHornerStep(ts, k, a, [], 0, B);
      } else {
        ghost var B0 := B;
        B := MultiplyPower(B, a, el1 - el2);
        B := Add(B, ts[k].1);
        RecursiveHornerStep(ts, k, a, B0, el1 - el2, B);
      }
      el1 := el2;
      k := k + 1;
    }
    B := MultiplyPower(B, a, el2);
    forall j: nat ensures Coef(B, j) == EvalTerms(CoefTerms(ts, j), a) {
      assert CoefTerms(ts, j)[..k] == CoefTerms(ts, j);
    }
    return Ok(B);
  }

  /** The trailing coefficient polynomial holds, coefficient by coefficient, the values at 0. */
  lemma TrailingCoefficientsAtZero(ts: seq<(nat, Poly)>)
    requires Descending(ts)
    ensures forall j: nat :: Coef(Trailing(ts, []), j) == EvalTerms(CoefTerms(ts, j), 0)
  {
    forall j: nat ensures Coef(Trailing(ts, []), j) == EvalTerms(CoefTerms(ts, j), 0) {
      TrailingIsValueAtZero(CoefTerms(ts, j));
    }
  }

  /** One Horner step of the recursive overload, coefficient by coefficient. */
  lemma RecursiveHornerStep(ts: seq<(nat, Poly)>, k: nat, a: int, B0: Poly, d: nat, B: Poly)
    requires k < |ts| && (k == 0 ==> B0 == [] && d == 0)
    requires k > 0 ==> d + ts[k].0 == ts[k - 1].0
    requires k > 0 ==> forall j: nat :: Coef(B0, j) * Pow(a, ts[k - 1].0) == EvalTerms(CoefTerms(ts, j)[..k], a)
    requires forall j: nat :: Coef(B, j) == Coef(B0, j) * Pow(a, d) + Coef(ts[k].1, j)
    ensures forall j: nat :: Coef(B, j) * Pow(a, ts[k].0) == EvalTerms(CoefTerms(ts, j)[..k + 1], a)
  {
    forall j: nat ensures Coef(B, j) * Pow(a, ts[k].0) == EvalTerms(CoefTerms(ts, j)[..k + 1], a) {
      EvalTermsPrefix(CoefTerms(ts, j), k, a);
      HornerStep(Coef(B0, j), a, d, ts[k].0, Coef(ts[k].1, j));
    }
  }

  /** The repeated B.multiply(a) of the Horner loop: n scalings by a. */
  method MultiplyPower(B: Poly, a: int, n: nat) returns (R: Poly)
    ensures forall j: nat :: Coef(R, j) == Coef(B, j) * Pow(a, n)
  {
    R := B;
    var i := 0;
    while i < n
      invariant 0 <= i <= n
      invariant forall j: nat :: Coef(R, j) == Coef(B, j) * Pow(a, i)
    {
      forall j: nat ensures Coef(B, j) * Pow(a, i) * a == Coef(B, j) * Pow(a, i + 1) {
        PowStep(Coef(B, j), a, i);
      }
      R := Scale(a, R);
      i := i + 1;
    }
  }

  // ---------------------------------------------------------------------------------
  // Univariate interpolation over Z/m

  /**
    interpolate: with b = A(am) and d = a - b in Z/m, A itself when d == 0 and otherwise
    M * (d * mi) + A, coefficients reduced modulo m.
  */
  function Interpolate(A: Poly, M: Poly, mi: int, a: int, am: int, m: int): (S: Poly)
    requires m > 0
    ensures Reduced(A, m) ==> Reduced(S, m)
  {
    var b := Eval(A, am) % m;
    var d := (a - b) % m;
    if d == 0 then A
    else
      ReduceCong(Add(Reduce(Scale((d * mi) % m, M), m), A), m);
      Reduce(Add(Reduce(Scale((d * mi) % m, M), m), A), m)
  }

  /** When A already takes the value a at am, interpolation leaves A unchanged. */
  lemma InterpolateKeepsFit(A: Poly, M: Poly, mi: int, a: int, am: int, m: int)
    requires m > 0 && 0 <= a < m && Eval(A, am) % m == a
    ensures Interpolate(A, M, mi, a, am, m) == A
  {
    assert (a - Eval(A, am) % m) % m == 0 % m == 0;
  }

  /** The result differs from A by a constant multiple of M: S == A modulo M, over Z/m. */
  lemma InterpolateModM(A: Poly, M: Poly, mi: int, a: int, am: int, m: int)
    requires m > 0
    ensures exists c :: Cong(Interpolate(A, M, mi, a, am, m), Add(A, Scale(c, M)), m)
  {
    var S := Interpolate(A, M, mi, a, am, m);
    var d := (a - Eval(A, am) % m) % m;
    if d == 0 {
      assert Same(S, Add(A, Scale(0, M)));
      SameIsCong(S, Add(A, Scale(0, M)), m);
    } else {
      var c := (d * mi) % m;
      var X := Add(Reduce(Scale(c, M), m), A);
      ReduceCong(X, m);
      ReduceCong(Scale(c, M), m);
      SameIsCong(A, A, m);
      CongAdd(Reduce(Scale(c, M), m), Scale(c, M), A, A, m);
      CongTrans(S, X, Add(Scale(c, M), A), m);
      assert Same(Add(Scale(c, M), A), Add(A, Scale(c, M)));
      SameIsCong(Add(Scale(c, M), A), Add(A, Scale(c, M)), m);
      CongTrans(S, Add(Scale(c, M), A), Add(A, Scale(c, M)), m);
    }
  }

  /** When mi is the inverse of M(am), the result takes the value a at am. */
  lemma InterpolateHitsValue(A: Poly, M: Poly, mi: int, a: int, am: int, m: int)
    requires m > 0 && 0 <= a < m && (Eval(M, am) * mi) % m == 1
    ensures Eval(Interpolate(A, M, mi, a, am, m), am) % m == a
  {
    var S := Interpolate(A, M, mi, a, am, m);
    var b := Eval(A, am) % m;
    var d := (a - b) % m;
    if d == 0 {
      ZeroResidueEqual(a, b, m);
    } else {
      var c := (d * mi) % m;
      var R := Reduce(Scale(c, M), m);
      var X := Add(R, A);
      ReduceCong(X, m);
      EvalCong(S, X, am, m);
      EvalAdd(R, A, am);
      ReduceCong(Scale(c, M), m);
      EvalCong(R, Scale(c, M), am, m);
      EvalScale(c, M, am);
      InterpolateArith(Eval(M, am), Eval(A, am), mi, a, m, Eval(R, am), Eval(S, am));
    }
  }

  lemma ZeroResidueEqual(a: int, b: int, m: int)
    requires m > 0 && 0 <= a < m && 0 <= b < m && (a - b) % m == 0
    ensures a == b
  {
    DivModUnique(a - b, m, 0, a - b);
  }

  /** The residue arithmetic behind InterpolateHitsValue. */
  lemma InterpolateArith(vM: int, vA: int, mi: int, a: int, m: int, vR: int, vS: int)
    requires m > 0 && 0 <= a < m && (vM * mi) % m == 1
    requires Divides(m, vR - ((a - vA % m) % m * mi) % m * vM)
    requires Divides(m, vS - (vR + vA))
    ensures vS % m == a
  {
    var c := ((a - vA % m) % m * mi) % m;
    InterpolateResidue(vM, vA, mi, a, m, c);
    DividesSum(m, vR - c * vM, c * vM + vA - a);
    DividesSum(m, vS - (vR + vA), vR - c * vM + (c * vM + vA - a));
    assert vS - (vR + vA) + (vR - c * vM + (c * vM + vA - a)) == vS - a;
    CongruentMod(m, vS, a);
    DivModUnique(a, m, 0, a);
  }

  /** The correction c = ((a - vA) * mi) mod m makes c * vM + vA congruent to a. */
  lemma InterpolateResidue(vM: int, vA: int, mi: int, a: int, m: int, c: int)
    requires m > 0 && (vM * mi) % m == 1 && c == ((a - vA % m) % m * mi) % m
    ensures Divides(m, c * vM + vA - a)
  {
    var b := vA % m;
    var d := (a - b) % m;
    var q1, q2, q3, q4 := (d * mi) / m, (a - b) / m, vA / m, (vM * mi) / m;
    assert c == d * mi - m * q1;
    assert d == a - b - m * q2;
    assert vA == b + m * q3;
    assert vM * mi == 1 + m * q4;
    InterpolateIdentity(vM, vA, mi, a, m, b, d, c, q1, q2, q3, q4);
    var K := d * q4 - q1 * vM + q3 - q2;
    MultipleDivides(m, K);
    assert c * vM + vA - a == m * K;
  }

  lemma InterpolateIdentity(vM: int, vA: int, mi: int, a: int, m: int, b: int, d: int, c: int,
                            q1: int, q2: int, q3: int, q4: int)
    requires c == d * mi - m * q1 && d == a - b - m * q2 && vA == b + m * q3 && vM * mi == 1 + m * q4
    ensures c * vM + vA - a == m * (d * q4 - q1 * vM + q3 - q2)
  {
    assert c * vM == d * (vM * mi) - m * q1 * vM;
    assert d * (vM * mi) == d + m * (d * q4);
  }

  // ---------------------------------------------------------------------------------
  // monic on a recursive polynomial over Z/m

  /**
    A recursive polynomial: the coefficient of the main variable's x^i at index i, each
    a dense univariate polynomial over Z/m.
  */
  type RecPoly = seq<Poly>

  predicate IsZeroRec(p: RecPoly)
  {
    forall i :: 0 <= i < |p| ==> IsZero(p[i])
  }

  predicate ReducedRec(p: RecPoly, m: int)
  {
    forall i :: 0 <= i < |p| ==> Reduced(p[i], m)
  }

  /** Degree in the main variable: the last nonzero coefficient polynomial (0 for zero). */
  function RecDegree(p: RecPoly): (d: nat)
    ensures IsZeroRec(p) ==> d == 0
    ensures !IsZeroRec(p) ==> d < |p| && !IsZero(p[d]) && forall i :: d < i < |p| ==> IsZero(p[i])
  {
    if |p| == 0 then 0
    else if !IsZero(p[|p| - 1]) then |p| - 1
    else
      var d := RecDegree(p[..|p| - 1]);
      assert forall i :: 0 <= i < |p| - 1 ==> p[..|p| - 1][i] == p[i];
      d
  }

  /** leadingBaseCoefficient of the leading coefficient polynomial (0 for zero). */
  function LeadingBase(p: RecPoly): int
  {
    if IsZeroRec(p) then 0 else Lc(p[RecDegree(p)])
  }

  /** ModInteger.isUnit on a residue: coprime to the modulus. */
  predicate IsUnitMod(c: int, m: int)
    requires m > 0
  {
    Gcd(c % m, m) == 1
  }

  /**
    monic: the zero polynomial and one whose leading base coefficient is not a unit come
    back unchanged; otherwise every coefficient is multiplied by that coefficient's inverse.
  */
  function Monic(p: RecPoly, m: int): (q: RecPoly)
    requires m > 1 && ReducedRec(p, m)
    ensures |q| == |p| && ReducedRec(q, m)
  {
    if IsZeroRec(p) then p
    else
      var lc := LeadingBase(p);
      if !IsUnitMod(lc, m) then p
      else
        var lm := UnitInverse(lc, m);
        seq(|p|, i requires 0 <= i < |p| => ReduceScale(lm, p[i], m))
  }

  /** Multiplication of a polynomial over Z/m by a constant. */
  function ReduceScale(k: int, a: Poly, m: int): (c: Poly)
    requires m > 0
    ensures |c| == |a| && Reduced(c, m)
    ensures forall i: nat :: Coef(c, i) == (k * Coef(a, i)) % m
  {
    ReduceCong(Scale(k, a), m);
    Reduce(Scale(k, a), m)
  }

  /** A unit keeps exactly the zero coefficients zero, so degree and zeroness survive. */
  lemma UnitScalePattern(u: int, ui: int, a: Poly, m: int)
    requires m > 1 && Reduced(a, m) && (u * ui) % m == 1
    ensures forall i :: 0 <= i < |a| ==> (ReduceScale(u, a, m)[i] == 0 <==> a[i] == 0)
    ensures IsZero(ReduceScale(u, a, m)) <==> IsZero(a)
    ensures Degree(ReduceScale(u, a, m)) == Degree(a)
  {
    var c := ReduceScale(u, a, m);
    forall i | 0 <= i < |a| ensures c[i] == 0 <==> a[i] == 0 {
      assert c[i] == Coef(c, i);
      UnitResidueZero(u, ui, a[i], m);
    }
    SamePatternDegree(c, a);
  }

  lemma UnitResidueZero(u: int, ui: int, x: int, m: int)
    requires m > 1 && 0 <= x < m && (u * ui) % m == 1
    ensures (u * x) % m == 0 <==> x == 0
  {
    if (u * x) % m == 0 {
      assert Divides(m, u * x);
      UnitCancels(x, u, m, ui);
      DivModUnique(x, m, 0, x);
    }
  }

  /** Two recursive polynomials with the same zero coefficients have the same degree. */
  lemma {:induction false} SamePatternRecDegree(p: RecPoly, q: RecPoly)
    requires |p| == |q| && forall i :: 0 <= i < |p| ==> (IsZero(p[i]) <==> IsZero(q[i]))
    ensures IsZeroRec(p) <==> IsZeroRec(q)
    ensures RecDegree(p) == RecDegree(q)
  {
    if |p| > 0 && IsZero(p[|p| - 1]) {
      var k := |p| - 1;
      SamePatternRecDegree(p[..k], q[..k]);
      assert IsZeroRec(p) <==> IsZeroRec(p[..k]);
      assert IsZeroRec(q) <==> IsZeroRec(q[..k]);
    }
  }

  /**
    A polynomial with a unit leading base coefficient becomes monic, keeps its degree and
    its zero coefficients, and multiplying back by the old leading coefficient restores it.
  */
  lemma MonicNormalises(p: RecPoly, m: int)
    requires m > 1 && ReducedRec(p, m) && !IsZeroRec(p) && IsUnitMod(LeadingBase(p), m)
    ensures !IsZeroRec(Monic(p, m)) && RecDegree(Monic(p, m)) == RecDegree(p)
    ensures LeadingBase(Monic(p, m)) == 1
    ensures forall i :: 0 <= i < |p| ==> Cong(Scale(LeadingBase(p), Monic(p, m)[i]), p[i], m)
  {
    var q := Monic(p, m);
    var lc := LeadingBase(p);
    var lm := UnitInverse(lc, m);
    assert (lm * lc) % m == 1;
    forall i | 0 <= i < |p| ensures IsZero(p[i]) <==> IsZero(q[i]) {
      UnitScalePattern(lm, lc, p[i], m);
    }
    SamePatternRecDegree(p, q);
    var d := RecDegree(p);
    UnitScalePattern(lm, lc, p[d], m);
    assert Lc(q[d]) == (lm * lc) % m;
    forall i | 0 <= i < |p| ensures Cong(Scale(lc, q[i]), p[i], m) {
      ScaleBack(lc, lm, p[i], m);
    }
  }

  /** Scaling by u and then by its inverse ui gives back a reduced polynomial, modulo m. */
  lemma ScaleBack(ui: int, u: int, a: Poly, m: int)
    requires m > 1 && Reduced(a, m) && (u * ui) % m == 1
    ensures Cong(Scale(ui, ReduceScale(u, a, m)), a, m)
  {
    var c := ReduceScale(u, a, m);
    forall i: nat ensures Divides(m, Coef(Scale(ui, c), i) - Coef(a, i)) {
      UnitProduct(ui, u, Coef(a, i), m);
    }
  }

  lemma UnitProduct(ui: int, u: int, x: int, m: int)
    requires m > 0 && (u * ui) % m == 1
    ensures Divides(m, ui * ((u * x) % m) - x)
  {
    var q1, q2 := (u * x) / m, (u * ui) / m;
    assert (u * x) % m == u * x - m * q1;
    assert u * ui == 1 + m * q2;
    assert ui * (u * x - m * q1) - x == m * (x * q2 - ui * q1) by {
      assert ui * (u * x) == x * (u * ui);
    }
    MultipleDivides(m, x * q2 - ui * q1);
  }

  /** monic is idempotent. */
  lemma MonicIdempotent(p: RecPoly, m: int)
    requires m > 1 && ReducedRec(p, m)
    ensures Monic(Monic(p, m), m) == Monic(p, m)
  {
    if !IsZeroRec(p) && IsUnitMod(LeadingBase(p), m) {
      var q := Monic(p, m);
      MonicNormalises(p, m);
      InverseOfOne(m);
      forall i | 0 <= i < |q| ensures ReduceScale(1, q[i], m) == q[i] {
        ReduceScaleOne(q[i], m);
      }
    }
  }

  lemma InverseOfOne(m: int)
    requires m > 1
    ensures IsUnitMod(1, m) && UnitInverse(1, m) == 1
  {
    DivModUnique(1, m, 0, 1);
    assert Gcd(1, m) == Gcd(m, 1) == Gcd(1, 0) == 1;
    var one := UnitInverse(1, m);
    DivModUnique(one, m, 0, one);
  }

  lemma ReduceScaleOne(a: Poly, m: int)
    requires m > 1 && Reduced(a, m)
    ensures ReduceScale(1, a, m) == a
  {
    forall j | 0 <= j < |a| ensures ReduceScale(1, a, m)[j] == a[j] {
      assert ReduceScale(1, a, m)[j] == Coef(ReduceScale(1, a, m), j);
      DivModUnique(a[j], m, 0, a[j]);
    }
  }

  /** The zero polynomial and one without a unit leading base coefficient are left alone. */
  lemma MonicKeepsNonUnits(p: RecPoly, m: int)
    requires m > 1 && ReducedRec(p, m) && (IsZeroRec(p) || !IsUnitMod(LeadingBase(p), m))
    ensures Monic(p, m) == p
  {
  }

  // ---------------------------------------------------------------------------------
  // factorBound

  predicate IsZeroVector(e: seq<nat>)
  {
    forall i :: 0 <= i < |e| ==> e[i] == 0
  }

  /** The sum of 2v - 1 over the positive entries v of a degree vector. */
  function DegreeSum(e: seq<nat>): nat
  {
    if e == [] then 0
    else DegreeSum(e[..|e| - 1]) + (if e[|e| - 1] > 0 then 2 * e[|e| - 1] - 1 else 0)
  }

  /** The product of v - 1 over the positive entries v of a degree vector. */
  function DegreeProduct(e: seq<nat>): nat
  {
    if e == [] then 1
    else DegreeProduct(e[..|e| - 1]) * (if e[|e| - 1] > 0 then e[|e| - 1] - 1 else 1)
  }

  /** BigInteger.bitCount on a non-negative number: its number of one bits. */
  function BitCount(p: nat): nat
  {
    if p == 0 then 0 else p % 2 + BitCount(p / 2)
  }

  /** BigInteger.bitLength on a non-negative number: the bits needed to write it. */
  function BitLength(p: nat): nat
  {
    if p == 0 then 0 else 1 + BitLength(p / 2)
  }

  /** 2^bitLength(p) exceeds p: bitLength is the rounded-up base-2 logarithm. */
  lemma {:induction false} BitLengthBound(p: nat)
    ensures p < Pow(2, BitLength(p))
  {
    if p > 0 {
      BitLengthBound(p / 2);
    }
  }

  lemma {:induction false} BitCountAtMostLength(p: nat)
    ensures BitCount(p) <= BitLength(p)
  {
    if p > 0 {
      BitCountAtMostLength(p / 2);
    }
  }

  /** 2 shifted left by (S + log + 1) / 2: the power of two factorBound returns. */
  function BoundFromLog(e: seq<nat>, log: nat): (N: nat)
    ensures N >= 2
  {
    PowPositive(2, (DegreeSum(e) + log + 1) / 2);
    2 * Pow(2, (DegreeSum(e) + log + 1) / 2)
  }

  /** The loop of factorBound: the degree sum and the degree product. */
  method DegreeTotals(e: seq<nat>) returns (n: nat, p: nat)
    ensures n == DegreeSum(e) && p == DegreeProduct(e)
  {
    n, p := 0, 1;
    var i := 0;
    while i < |e|
      invariant 0 <= i <= |e|
      invariant n == DegreeSum(e[..i]) && p == DegreeProduct(e[..i])
    {
      assert e[..i + 1][..i] == e[..i];
      if e[i] > 0 {
        n := n + (2 * e[i] - 1);
        p := p * (e[i] - 1);
      }
      i := i + 1;
    }
    assert e[..i] == e;
  }

  /**
    factorBound as written: 1 for the zero degree vector, else 2 shifted left by
    (S + bitCount(P) + 1) / 2 with S the degree sum and P the degree product.
  */
  method FactorBound(e: seq<nat>) returns (N: nat)
    ensures IsZeroVector(e) ==> N == 1
    ensures !IsZeroVector(e) ==> N == BoundFromLog(e, BitCount(DegreeProduct(e)))
  {
    if IsZeroVector(e) {
      return 1;
    }
    var n, p := DegreeTotals(e);
    n := n + (BitCount(p) + 1);
    n := n / 2;
    PowPositive(2, n);
    N := 2 * Pow(2, n);
  }

  /** factorBound with the base-2 logarithm of the product that its comment names. */
  method FactorBoundCorrected(e: seq<nat>) returns (N: nat)
    ensures IsZeroVector(e) ==> N == 1
    ensures !IsZeroVector(e) ==> N == BoundFromLog(e, BitLength(DegreeProduct(e)))
  {
    if IsZeroVector(e) {
      return 1;
    }
    var n, p := DegreeTotals(e);
    n := n + (BitLength(p) + 1);
    n := n / 2;
    PowPositive(2, n);
    N := 2 * Pow(2, n);
  }

  /** The corrected bound squared covers 4 * 2^S * (P + 1). */
  lemma FactorBoundCovers(e: seq<nat>)
    ensures var N := BoundFromLog(e, BitLength(DegreeProduct(e)));
      N * N >= 4 * Pow(2, DegreeSum(e)) * (DegreeProduct(e) + 1)
  {
    var S, P := DegreeSum(e), DegreeProduct(e);
    var L := BitLength(P);
    var h := (S + L + 1) / 2;
    assert BoundFromLog(e, L) == 2 * Pow(2, h);
    BitLengthBound(P);
    PowPositive(2, S);
    PowPositive(2, L);
    PowAdd(2, h, h);
    PowMonotone(2, S + L, h + h);
    PowAdd(2, S, L);
    CoverArith(Pow(2, h), Pow(2, S), Pow(2, L), Pow(2, h + h), Pow(2, S + L), P);
  }

  lemma CoverArith(ph: int, pS: int, pL: int, p2h: int, pSL: int, P: int)
    requires p2h == ph * ph && pSL == pS * pL && pSL <= p2h && P < pL && pS > 0 && P >= 0
    ensures (2 * ph) * (2 * ph) >= 4 * pS * (P + 1)
  {
    assert pS * (P + 1) <= pS * pL;
  }

  lemma {:induction false} PowMonotone(b: int, i: nat, j: nat)
    requires b >= 1 && i <= j
    ensures Pow(b, i) <= Pow(b, j)
    decreases j
  {
    if i < j {
      PowMonotone(b, i, j - 1);
      PowPositive(b, j - 1);
    }
  }

  /**
    With bitCount the bound falls short: for the degree vector (5), S = 9 and P = 4, the
    bound is 64 where the corrected one is 128, and 64^2 < 4 * 2^9 * 5.
  */
  lemma FactorBoundFallsShort()
    ensures DegreeSum([5]) == 9 && DegreeProduct([5]) == 4
    ensures BoundFromLog([5], BitCount(4)) == 64 && BoundFromLog([5], BitLength(4)) == 128
    ensures 64 * 64 < 4 * Pow(2, 9) * (4 + 1)
  {
    assert [5][..0] == [];
    assert Pow(2, 5) == 32;
    assert Pow(2, 6) == 64;
    assert Pow(2, 9) == 512;
  }
}
