/**
  Dense univariate polynomials over the integers: the coefficient of x^i is at index i,
  and trailing zeros are allowed, so two sequences denote the same polynomial when all
  their coefficients agree (`Same`). Arithmetic modulo m is integer arithmetic followed by
  reduction of every coefficient, which is exact because reduction is a ring homomorphism;
  `Cong` is coefficient-wise congruence.
*/
module Univariate {
  import opened Numbers

  type Poly = seq<int>

  function Coef(a: Poly, i: int): int
  {
    if 0 <= i < |a| then a[i] else 0
  }

  ghost predicate Same(a: Poly, b: Poly)
  {
    forall i: nat :: Coef(a, i) == Coef(b, i)
  }

  /** Coefficient-wise congruence modulo m. */
  ghost predicate Cong(a: Poly, b: Poly, m: int)
  {
    forall i: nat :: Divides(m, Coef(a, i) - Coef(b, i))
  }

  predicate IsZero(a: Poly)
  {
    forall i :: 0 <= i < |a| ==> a[i] == 0
  }

  lemma IsZeroSame(a: Poly)
    ensures IsZero(a) <==> Same(a, [])
  {
    if Same(a, []) {
      forall i | 0 <= i < |a| ensures a[i] == 0 {
        assert Coef(a, i) == Coef([], i);
      }
    }
  }

  /** The highest exponent with a nonzero coefficient; 0 for the zero polynomial. */
  function Degree(a: Poly): (d: nat)
    ensures IsZero(a) ==> d == 0
    ensures !IsZero(a) ==> d < |a| && a[d] != 0
    ensures forall i: nat :: d < i ==> Coef(a, i) == 0
  {
    if |a| == 0 then 0
    else if a[|a| - 1] != 0 then |a| - 1
    else
      var d := Degree(a[..|a| - 1]);
      assert forall i: nat :: i < |a| - 1 ==> Coef(a, i) == Coef(a[..|a| - 1], i);
      d
  }

  /** Two polynomials with the same zero pattern have the same degree. */
  lemma {:induction false} SamePatternDegree(a: Poly, b: Poly)
    requires |a| == |b| && forall i :: 0 <= i < |a| ==> (a[i] == 0 <==> b[i] == 0)
    ensures IsZero(a) <==> IsZero(b)
    ensures Degree(a) == Degree(b)
  {
    if |a| > 0 && a[|a| - 1] == 0 {
      var k := |a| - 1;
      SamePatternDegree(a[..k], b[..k]);
      assert IsZero(a) <==> IsZero(a[..k]);
      assert IsZero(b) <==> IsZero(b[..k]);
    }
  }

  /** The leading coefficient, as leadingBaseCoefficient returns it (0 for zero). */
  function Lc(a: Poly): int
  {
    Coef(a, Degree(a))
  }

  function Max(x: int, y: int): int { if x < y then y else x }

  function Add(a: Poly, b: Poly): (c: Poly)
    ensures |c| == Max(|a|, |b|)
    ensures forall i: nat :: Coef(c, i) == Coef(a, i) + Coef(b, i)
  {
    seq(Max(|a|, |b|), i => Coef(a, i) + Coef(b, i))
  }

  function Scale(k: int, a: Poly): (c: Poly)
    ensures |c| == |a|
    ensures forall i: nat :: Coef(c, i) == k * Coef(a, i)
  {
    seq(|a|, i => k * Coef(a, i))
  }

  function Sub(a: Poly, b: Poly): (c: Poly)
    ensures forall i: nat :: Coef(c, i) == Coef(a, i) - Coef(b, i)
  {
    Add(a, Scale(-1, b))
  }

  /** Multiplication by x. */
  function Shift(a: Poly): (c: Poly)
    ensures forall i: nat :: Coef(c, i) == Coef(a, i - 1)
  {
    [0] + a
  }

  function Tail(a: Poly): Poly
  {
    if |a| == 0 then [] else a[1..]
  }

  /** Schoolbook product: a0*b + x*(tail(a)*b). */
  function Mul(a: Poly, b: Poly): Poly
  {
    if |a| == 0 then [] else Add(Scale(a[0], b), Shift(Mul(a[1..], b)))
  }

  /** Horner evaluation at x. */
  function Eval(a: Poly, x: int): int
  {
    if |a| == 0 then 0 else a[0] + x * Eval(a[1..], x)
  }

  /** Coefficient-wise reduction into [0, m): fromIntegerCoefficients into Z/m. */
  function Reduce(a: Poly, m: int): (c: Poly)
    requires m > 0
    ensures |c| == |a| && Reduced(c, m)
    ensures forall i: nat :: Coef(c, i) == Coef(a, i) % m
  {
    seq(|a|, i => Coef(a, i) % m)
  }

  predicate Reduced(a: Poly, m: int)
  {
    forall i :: 0 <= i < |a| ==> 0 <= a[i] < m
  }

  /** Coefficient-wise symmetric lift: integerFromModularCoefficients. */
  function Lift(a: Poly, m: int): (c: Poly)
    requires m > 0
    ensures |c| == |a|
    ensures forall i: nat :: Coef(c, i) == SymLift(Coef(a, i), m)
  {
    seq(|a|, i => SymLift(Coef(a, i), m))
  }

  /** The symmetric lift of a reduced polynomial vanishes where it does, so it keeps the degree. */
  lemma LiftKeepsDegree(a: Poly, m: int)
    requires m > 0 && Reduced(a, m)
    ensures Degree(Lift(a, m)) == Degree(a)
  {
    var b := Lift(a, m);
    forall i | 0 <= i < |a| ensures a[i] == 0 <==> b[i] == 0 {
      assert b[i] == Coef(b, i) == SymLift(Coef(a, i), m);
    }
    SamePatternDegree(a, b);
  }

  /** GenPolynomial.divide by a BigInteger: every coefficient divided, truncating. */
  function DivCoefs(a: Poly, d: int): (c: Poly)
    requires d > 0
    ensures |c| == |a|
    ensures forall i: nat :: Coef(c, i) == JavaDiv(Coef(a, i), d)
  {
    seq(|a|, i => JavaDiv(Coef(a, i), d))
  }

  /** Dividing every coefficient by 1 changes nothing. */
  lemma DivCoefsOne(a: Poly)
    ensures DivCoefs(a, 1) == a
  {
    var c := DivCoefs(a, 1);
    forall i | 0 <= i < |a| ensures c[i] == a[i] {
      assert c[i] == Coef(c, i) == JavaDiv(Coef(a, i), 1);
    }
  }

  /** A polynomial whose coefficients are all multiples of d is d times its quotient. */
  lemma ExactQuotient(e: Poly, d: int)
    requires d > 0 && Cong(e, [], d)
    ensures Same(Scale(d, DivCoefs(e, d)), e)
  {
    forall i: nat ensures Coef(Scale(d, DivCoefs(e, d)), i) == Coef(e, i) {
      assert Coef(e, i) - Coef([], i) == Coef(e, i);
      JavaDivExact(Coef(e, i), d);
    }
  }

  // ---------------------------------------------------------------------------------
  // Equivalence and congruence

  lemma SameCong(a: Poly, b: Poly)
    ensures Same(a, b) <==> Cong(a, b, 0)
  {
  }

  lemma SameTrans(a: Poly, b: Poly, c: Poly)
    requires Same(a, b) && Same(b, c)
    ensures Same(a, c)
  {
  }

  lemma CongTrans(a: Poly, b: Poly, c: Poly, m: int)
    requires Cong(a, b, m) && Cong(b, c, m)
    ensures Cong(a, c, m)
  {
    forall i: nat ensures Divides(m, Coef(a, i) - Coef(c, i)) {
      DividesSum(m, Coef(a, i) - Coef(b, i), Coef(b, i) - Coef(c, i));
    }
  }

  lemma CongSym(a: Poly, b: Poly, m: int)
    requires Cong(a, b, m)
    ensures Cong(b, a, m)
  {
    forall i: nat ensures Divides(m, Coef(b, i) - Coef(a, i)) {
      DividesLinear(m, Coef(a, i) - Coef(b, i), 0, -1, 0);
    }
  }

  lemma SameIsCong(a: Poly, b: Poly, m: int)
    requires Same(a, b)
    ensures Cong(a, b, m)
  {
    forall i: nat ensures Divides(m, Coef(a, i) - Coef(b, i)) {
      MultipleDivides(m, 0);
    }
  }

  /** A congruence modulo m*k holds modulo m. */
  lemma CongDivisor(a: Poly, b: Poly, m: int, k: int)
    requires Cong(a, b, m * k)
    ensures Cong(a, b, m)
  {
    MultipleDivides(m, k);
    forall i: nat ensures Divides(m, Coef(a, i) - Coef(b, i)) {
      DividesTrans(m, m * k, Coef(a, i) - Coef(b, i));
    }
  }

  lemma CongAdd(a: Poly, a': Poly, b: Poly, b': Poly, m: int)
    requires Cong(a, a', m) && Cong(b, b', m)
    ensures Cong(Add(a, b), Add(a', b'), m) && Cong(Sub(a, b), Sub(a', b'), m)
  {
    forall i: nat
      ensures Divides(m, Coef(Add(a, b), i) - Coef(Add(a', b'), i))
      ensures Divides(m, Coef(Sub(a, b), i) - Coef(Sub(a', b'), i))
    {
      DividesSum(m, Coef(a, i) - Coef(a', i), Coef(b, i) - Coef(b', i));
    }
  }

  lemma CongScale(k: int, a: Poly, a': Poly, m: int)
    requires Cong(a, a', m)
    ensures Cong(Scale(k, a), Scale(k, a'), m)
  {
    forall i: nat ensures Divides(m, Coef(Scale(k, a), i) - Coef(Scale(k, a'), i)) {
      DividesLinear(m, Coef(a, i) - Coef(a', i), 0, k, 0);
    }
  }

  /** Multiplying by q a polynomial divisible by p gives one divisible by q*p. */
  lemma CongScaleModulus(q: int, a: Poly, a': Poly, m: int)
    requires Cong(a, a', m)
    ensures Cong(Scale(q, a), Scale(q, a'), q * m)
  {
    forall i: nat ensures Divides(q * m, Coef(Scale(q, a), i) - Coef(Scale(q, a'), i)) {
      DividesTimes(m, Coef(a, i) - Coef(a', i), q);
      assert (Coef(a, i) - Coef(a', i)) * q == Coef(Scale(q, a), i) - Coef(Scale(q, a'), i);
      assert m * q == q * m;
    }
  }

  lemma ReduceCong(a: Poly, m: int)
    requires m > 0
    ensures Cong(Reduce(a, m), a, m) && Reduced(Reduce(a, m), m)
  {
    forall i: nat ensures Divides(m, Coef(Reduce(a, m), i) - Coef(a, i)) {
      ModCongruent(m, Coef(a, i));
      DividesLinear(m, Coef(a, i) - Coef(a, i) % m, 0, -1, 0);
    }
  }

  /** Congruent polynomials reduce to the same coefficients. */
  lemma CongReduce(a: Poly, b: Poly, m: int)
    requires m > 0 && Cong(a, b, m)
    ensures Same(Reduce(a, m), Reduce(b, m))
  {
    forall i: nat ensures Coef(Reduce(a, m), i) == Coef(Reduce(b, m), i) {
      CongruentMod(m, Coef(a, i), Coef(b, i));
    }
  }

  /** The symmetric lift of a reduced polynomial is congruent to it and reduces back to it. */
  lemma LiftCong(a: Poly, m: int)
    requires m > 0 && Reduced(a, m)
    ensures Cong(Lift(a, m), a, m)
    ensures Reduce(Lift(a, m), m) == a
  {
    forall i: nat ensures Divides(m, Coef(Lift(a, m), i) - Coef(a, i)) {
      if i < |a| {
        SymLiftReduces(a[i], m);
        ModCongruent(m, SymLift(a[i], m));
      } else {
        MultipleDivides(m, 0);
      }
    }
    forall i | 0 <= i < |a| ensures Reduce(Lift(a, m), m)[i] == a[i] {
      SymLiftReduces(a[i], m);
    }
  }

  // ---------------------------------------------------------------------------------
  // Ring laws of Mul, up to Same

  lemma MulUnfold(a: Poly, b: Poly)
    ensures Same(Mul(a, b), Add(Scale(Coef(a, 0), b), Shift(Mul(Tail(a), b))))
  {
  }

  /** Congruent heads and congruent tails give congruent a0*b + x*t. */
  lemma CongHeadStep(h: int, h': int, b: Poly, t: Poly, t': Poly, m: int)
    requires Divides(m, h - h') && Cong(t, t', m)
    ensures Cong(Add(Scale(h, b), Shift(t)), Add(Scale(h', b), Shift(t')), m)
  {
    var u := Add(Scale(h, b), Shift(t));
    var u' := Add(Scale(h', b), Shift(t'));
    forall i: nat ensures Divides(m, Coef(u, i) - Coef(u', i)) {
      var dt := Coef(t, i - 1) - Coef(t', i - 1);
      if i == 0 {
        MultipleDivides(m, 0);
      }
      assert Coef(u, i) == h * Coef(b, i) + Coef(t, i - 1);
      assert Coef(u', i) == h' * Coef(b, i) + Coef(t', i - 1);
      HeadDifference(m, h, h', Coef(b, i), Coef(t, i - 1), Coef(t', i - 1));
    }
  }

  lemma HeadDifference(m: int, h: int, h': int, x: int, y: int, y': int)
    requires Divides(m, h - h') && Divides(m, y - y')
    ensures Divides(m, (h * x + y) - (h' * x + y'))
  {
    DividesLinear(m, h - h', y - y', x, 1);
    assert (h * x + y) - (h' * x + y') == x * (h - h') + 1 * (y - y');
  }

  lemma {:induction false} CongMulLeft(a: Poly, a': Poly, b: Poly, m: int)
    requires Cong(a, a', m)
    ensures Cong(Mul(a, b), Mul(a', b), m)
    decreases |a| + |a'|
  {
    if |a| + |a'| > 0 {
      CongTail(a, a', m);
      CongMulLeft(Tail(a), Tail(a'), b, m);
      CongMulStep(a, a', b, m);
    }
  }

  lemma CongTail(a: Poly, a': Poly, m: int)
    requires Cong(a, a', m)
    ensures Cong(Tail(a), Tail(a'), m)
  {
    forall i: nat ensures Divides(m, Coef(Tail(a), i) - Coef(Tail(a'), i)) {
      assert Coef(Tail(a), i) == Coef(a, i + 1) && Coef(Tail(a'), i) == Coef(a', i + 1);
    }
  }

  /** The step of CongMulLeft: congruent heads and tail products give congruent products. */
  lemma CongMulStep(a: Poly, a': Poly, b: Poly, m: int)
    requires Cong(a, a', m) && Cong(Mul(Tail(a), b), Mul(Tail(a'), b), m)
    ensures Cong(Mul(a, b), Mul(a', b), m)
  {
    var t, t' := Mul(Tail(a), b), Mul(Tail(a'), b);
    var u := Add(Scale(Coef(a, 0), b), Shift(t));
    var u' := Add(Scale(Coef(a', 0), b), Shift(t'));
    CongHeadStep(Coef(a, 0), Coef(a', 0), b, t, t', m);
    MulUnfold(a, b);
    MulUnfold(a', b);
    SameIsCong(Mul(a, b), u, m);
    SameIsCong(u', Mul(a', b), m);
    CongTrans(Mul(a, b), u, u', m);
    CongTrans(Mul(a, b), u', Mul(a', b), m);
  }

  lemma {:induction false} MulSameRight(a: Poly, b: Poly, b': Poly)
    requires Same(b, b')
    ensures Same(Mul(a, b), Mul(a, b'))
  {
    if |a| > 0 {
      MulSameRight(a[1..], b, b');
    }
  }

  lemma {:induction false} MulAddRight(a: Poly, b: Poly, c: Poly)
    ensures Same(Mul(a, Add(b, c)), Add(Mul(a, b), Mul(a, c)))
  {
    if |a| > 0 {
      MulAddRight(a[1..], b, c);
      forall i: nat ensures Coef(Mul(a, Add(b, c)), i) == Coef(Add(Mul(a, b), Mul(a, c)), i) {
        assert a[0] * (Coef(b, i) + Coef(c, i)) == a[0] * Coef(b, i) + a[0] * Coef(c, i);
      }
    }
  }

  lemma Distrib(h: int, k: int, y: int, z: int)
    ensures h * (k * y) + k * z == k * (h * y + z)
  {
  }

  lemma {:induction false} MulScaleRight(a: Poly, k: int, b: Poly)
    ensures Same(Mul(a, Scale(k, b)), Scale(k, Mul(a, b)))
  {
    if |a| > 0 {
      var t := Mul(a[1..], b);
      var t' := Mul(a[1..], Scale(k, b));
      MulScaleRight(a[1..], k, b);
      assert Mul(a, Scale(k, b)) == Add(Scale(a[0], Scale(k, b)), Shift(t'));
      assert Mul(a, b) == Add(Scale(a[0], b), Shift(t));
      MulScaleStep(a[0], k, b, t, t');
    }
  }

  /** The step of MulScaleRight: one more head coefficient h. */
  lemma MulScaleStep(h: int, k: int, b: Poly, t: Poly, t': Poly)
    requires Same(t', Scale(k, t))
    ensures Same(Add(Scale(h, Scale(k, b)), Shift(t')), Scale(k, Add(Scale(h, b), Shift(t))))
  {
    forall i: nat
      ensures Coef(Add(Scale(h, Scale(k, b)), Shift(t')), i) == Coef(Scale(k, Add(Scale(h, b), Shift(t))), i)
    {
      assert Coef(t', i - 1) == k * Coef(t, i - 1);
      Distrib(h, k, Coef(b, i), Coef(t, i - 1));
    }
  }

  lemma {:induction false} MulShiftRight(a: Poly, b: Poly)
    ensures Same(Mul(a, Shift(b)), Shift(Mul(a, b)))
  {
    if |a| > 0 {
      MulShiftRight(a[1..], b);
    }
  }

  lemma {:induction false} MulConstRight(a: Poly, k: int)
    ensures Same(Mul(a, [k]), Scale(k, a))
  {
    if |a| > 0 {
      MulConstRight(a[1..], k);
      forall i: nat ensures Coef(Mul(a, [k]), i) == Coef(Scale(k, a), i) {
        if i > 0 {
          assert Coef(a[1..], i - 1) == Coef(a, i);
        }
      }
    }
  }

  lemma MulShiftLeft(a: Poly, b: Poly)
    ensures Same(Mul(Shift(a), b), Shift(Mul(a, b)))
  {
    assert Shift(a)[1..] == a;
  }

  /** Every polynomial is its constant term plus x times its tail. */
  lemma SplitHead(a: Poly)
    ensures Same(a, Add([Coef(a, 0)], Shift(Tail(a))))
  {
  }

  lemma {:induction false} MulComm(a: Poly, b: Poly)
    ensures Same(Mul(a, b), Mul(b, a))
  {
    if |a| > 0 {
      MulComm(a[1..], b);
      var h, t := a[0], a[1..];
      SplitHead(a);
      MulSameRight(b, a, Add([h], Shift(t)));
      MulAddRight(b, [h], Shift(t));
      MulConstRight(b, h);
      MulShiftRight(b, t);
    } else {
      MulSameRight(b, a, []);
      MulConstRight(b, 0);
      assert Same([], [0]);
      MulSameRight(b, [], [0]);
    }
  }

  lemma MulSameLeft(a: Poly, a': Poly, b: Poly)
    requires Same(a, a')
    ensures Same(Mul(a, b), Mul(a', b))
  {
    SameCong(a, a');
    CongMulLeft(a, a', b, 0);
    SameCong(Mul(a, b), Mul(a', b));
  }

  lemma CongMulRight(a: Poly, b: Poly, b': Poly, m: int)
    requires Cong(b, b', m)
    ensures Cong(Mul(a, b), Mul(a, b'), m)
  {
    CongMulLeft(b, b', a, m);
    MulComm(a, b);
    MulComm(b', a);
    SameIsCong(Mul(a, b), Mul(b, a), m);
    SameIsCong(Mul(b', a), Mul(a, b'), m);
    CongTrans(Mul(a, b), Mul(b, a), Mul(b', a), m);
    CongTrans(Mul(a, b), Mul(b', a), Mul(a, b'), m);
  }

  /** Products of congruent polynomials are congruent. */
  lemma CongMul(a: Poly, a': Poly, b: Poly, b': Poly, m: int)
    requires Cong(a, a', m) && Cong(b, b', m)
    ensures Cong(Mul(a, b), Mul(a', b'), m)
  {
    CongMulLeft(a, a', b, m);
    CongMulRight(a', b, b', m);
    CongTrans(Mul(a, b), Mul(a', b), Mul(a', b'), m);
  }

  lemma MulAddLeft(a: Poly, b: Poly, c: Poly)
    ensures Same(Mul(Add(a, b), c), Add(Mul(a, c), Mul(b, c)))
  {
    MulComm(Add(a, b), c);
    MulAddRight(c, a, b);
    MulComm(c, a);
    MulComm(c, b);
  }

  lemma MulScaleLeft(k: int, a: Poly, b: Poly)
    ensures Same(Mul(Scale(k, a), b), Scale(k, Mul(a, b)))
  {
    MulComm(Scale(k, a), b);
    MulScaleRight(b, k, a);
    MulComm(b, a);
  }

  lemma {:induction false} MulAssoc(a: Poly, b: Poly, c: Poly)
    ensures Same(Mul(Mul(a, b), c), Mul(a, Mul(b, c)))
  {
    if |a| > 0 {
      var h, t := a[0], a[1..];
      MulAssoc(t, b, c);
      var u := Scale(h, b);
      var v := Shift(Mul(t, b));
      MulAddLeft(u, v, c);
      MulScaleLeft(h, b, c);
      MulShiftLeft(Mul(t, b), c);
    }
  }

  // ---------------------------------------------------------------------------------
  // Evaluation is a ring homomorphism

  lemma EvalHead(a: Poly, x: int)
    ensures Eval(a, x) == Coef(a, 0) + x * Eval(Tail(a), x)
  {
  }

  /** Evaluation only depends on the coefficients. */
  lemma EvalSame(a: Poly, b: Poly, x: int)
    requires Same(a, b)
    ensures Eval(a, x) == Eval(b, x)
  {
    SameCong(a, b);
    EvalCong(a, b, x, 0);
  }

  lemma {:induction false} EvalAdd(a: Poly, b: Poly, x: int)
    ensures Eval(Add(a, b), x) == Eval(a, x) + Eval(b, x)
    decreases |a| + |b|
  {
    if |a| + |b| > 0 {
      var s := Add(a, b);
      EvalAdd(Tail(a), Tail(b), x);
      assert Same(s[1..], Add(Tail(a), Tail(b))) by {
        forall i: nat ensures Coef(s[1..], i) == Coef(Add(Tail(a), Tail(b)), i) {
          assert Coef(s[1..], i) == Coef(s, i + 1);
        }
      }
      EvalSame(s[1..], Add(Tail(a), Tail(b)), x);
      EvalHead(a, x);
      EvalHead(b, x);
      DistribSum(x, Eval(Tail(a), x), Eval(Tail(b), x));
    }
  }

  lemma DistribSum(x: int, y: int, z: int)
    ensures x * (y + z) == x * y + x * z
  {
  }

  lemma {:induction false} EvalScale(k: int, a: Poly, x: int)
    ensures Eval(Scale(k, a), x) == k * Eval(a, x)
  {
    if |a| > 0 {
      var s := Scale(k, a);
      EvalScale(k, a[1..], x);
      assert s[1..] == Scale(k, a[1..]);
      assert s[0] == Coef(s, 0) == k * a[0];
      assert Eval(s, x) == s[0] + x * Eval(s[1..], x);
      ScaleArith(k, a[0], x, Eval(a[1..], x));
    }
  }

  lemma ScaleArith(k: int, h: int, x: int, e: int)
    ensures k * h + x * (k * e) == k * (h + x * e)
  {
    assert x * (k * e) == k * (x * e);
  }

  lemma {:induction false} EvalMul(a: Poly, b: Poly, x: int)
    ensures Eval(Mul(a, b), x) == Eval(a, x) * Eval(b, x)
  {
    if |a| > 0 {
      var t := Mul(a[1..], b);
      EvalMul(a[1..], b, x);
      EvalAdd(Scale(a[0], b), Shift(t), x);
      EvalScale(a[0], b, x);
      assert Shift(t)[1..] == t;
      EvalMulStep(a[0], x, Eval(a[1..], x), Eval(b, x));
    }
  }

  lemma EvalMulStep(h: int, x: int, ta: int, vb: int)
    ensures h * vb + x * (ta * vb) == (h + x * ta) * vb
  {
  }

  /** Congruent polynomials take congruent values. */
  lemma {:induction false} EvalCong(a: Poly, b: Poly, x: int, m: int)
    requires Cong(a, b, m)
    ensures Divides(m, Eval(a, x) - Eval(b, x))
    decreases |a| + |b|
  {
    if |a| + |b| > 0 {
      assert Cong(Tail(a), Tail(b), m) by {
        forall i: nat ensures Divides(m, Coef(Tail(a), i) - Coef(Tail(b), i)) {
          assert Coef(Tail(a), i) == Coef(a, i + 1) && Coef(Tail(b), i) == Coef(b, i + 1);
        }
      }
      EvalCong(Tail(a), Tail(b), x, m);
      assert Eval(a, x) == Coef(a, 0) + x * Eval(Tail(a), x);
      assert Eval(b, x) == Coef(b, 0) + x * Eval(Tail(b), x);
      assert Divides(m, Coef(a, 0) - Coef(b, 0));
      DividesLinear(m, Coef(a, 0) - Coef(b, 0), Eval(Tail(a), x) - Eval(Tail(b), x), 1, x);
      assert Eval(a, x) - Eval(b, x)
        == 1 * (Coef(a, 0) - Coef(b, 0)) + x * (Eval(Tail(a), x) - Eval(Tail(b), x));
    }
  }

  // ---------------------------------------------------------------------------------
  // Division with remainder over Z/p (GenPolynomial.divideAndRemainder on ModInteger)

  /** Multiplication by x^k. */
  function ShiftN(a: Poly, k: nat): Poly
  {
    if k == 0 then a else Shift(ShiftN(a, k - 1))
  }

  lemma {:induction false} ShiftNCoef(a: Poly, k: nat)
    ensures forall i: nat :: Coef(ShiftN(a, k), i) == Coef(a, i - k)
  {
    if k > 0 {
      ShiftNCoef(a, k - 1);
    }
  }

  lemma ShiftSame(a: Poly, b: Poly)
    requires Same(a, b)
    ensures Same(Shift(a), Shift(b))
  {
  }

  /** The monomial c*x^k times b is b shifted by k and scaled by c. */
  lemma ShiftScale(c: int, b: Poly, k: nat)
    requires k > 0
    ensures Same(Shift(Scale(c, ShiftN(b, k - 1))), Scale(c, ShiftN(b, k)))
  {
    ShiftNCoef(b, k - 1);
    ShiftNCoef(b, k);
  }

  lemma {:induction false} MulMonomial(c: int, k: nat, b: Poly)
    ensures Same(Mul(ShiftN([c], k), b), Scale(c, ShiftN(b, k)))
  {
    if k > 0 {
      MulMonomial(c, k - 1, b);
      MulMonomialStep(c, k, b);
    }
  }

  lemma MulMonomialStep(c: int, k: nat, b: Poly)
    requires k > 0
    requires Same(Mul(ShiftN([c], k - 1), b), Scale(c, ShiftN(b, k - 1)))
    ensures Same(Mul(ShiftN([c], k), b), Scale(c, ShiftN(b, k)))
  {
    var m' := ShiftN([c], k - 1);
    var u := Scale(c, ShiftN(b, k - 1));
    MulShiftLeft(m', b);
    ShiftSame(Mul(m', b), u);
    SameTrans(Mul(ShiftN([c], k), b), Shift(Mul(m', b)), Shift(u));
    ShiftScale(c, b, k);
    SameTrans(Mul(ShiftN([c], k), b), Shift(u), Scale(c, ShiftN(b, k)));
  }

  /** The leading coefficient cancels: (r * l^-1 mod p) * l == r modulo p. */
  lemma CancelLead(r: int, l: int, inv: int, p: int)
    requires p > 0 && (l * inv) % p == 1
    ensures (r - ((r * inv) % p) * l) % p == 0
  {
    var q1 := (r * inv) / p;
    var q2 := (l * inv) / p;
    CancelArith(r, l, inv, p, q1, q2, (r * inv) % p);
    MultipleDivides(p, q1 * l - r * q2);
  }

  lemma CancelArith(r: int, l: int, inv: int, p: int, q1: int, q2: int, s: int)
    requires s == r * inv - p * q1 && l * inv == p * q2 + 1
    ensures r - s * l == p * (q1 * l - r * q2)
  {
    assert s * l == r * (inv * l) - p * (q1 * l);
    assert r * (inv * l) == r * (p * q2) + r;
    assert r * (p * q2) == p * (r * q2);
  }

  /**
    Division with remainder modulo a prime: a == q*b + r modulo p, where r is zero or of
    lower degree than b, and both are reduced.
  */
  function DivRemMod(a: Poly, b: Poly, p: int): (qr: (Poly, Poly))
    requires IsPrime(p) && Reduced(b, p) && !IsZero(b)
    ensures Cong(a, Add(Mul(qr.0, b), qr.1), p)
    ensures Reduced(qr.0, p) && Reduced(qr.1, p)
    ensures IsZero(qr.1) || Degree(qr.1) < Degree(b)
    decreases |a|
  {
    var r := Reduce(a, p);
    ReduceCong(a, p);
    if IsZero(r) || Degree(r) < Degree(b) then
      CongSym(r, a, p);
      assert Same(Add(Mul([], b), r), r);
      SameIsCong(r, Add(Mul([], b), r), p);
      CongTrans(a, r, Add(Mul([], b), r), p);
      ([], r)
    else
      var d, e := Degree(r), Degree(b);
      DivModUnique(b[e], p, 0, b[e]);
      var inv := InverseMod(b[e], p);
      var c := (r[d] * inv) % p;
      var k: nat := d - e;
      var r1 := Reduce(Sub(r, Scale(c, ShiftN(b, k))), p);
      LeadCancels(r, b, p, inv, c, k, r1);
      var r2 := r1[..d];
      TruncateSame(r1, d);
      var qr' := DivRemMod(r2, b, p);
      var m := ShiftN([c], k);
      var q := Reduce(Add(m, qr'.0), p);
      MulMonomial(c, k, b);
      SameSym(Mul(m, b), Scale(c, ShiftN(b, k)));
      DivRemStep(a, b, p, r, Scale(c, ShiftN(b, k)), r1, r2, m, qr'.0, qr'.1, q);
      (q, qr'.1)
  }

  lemma SameSym(a: Poly, b: Poly)
    requires Same(a, b)
    ensures Same(b, a)
  {
  }

  /** Dropping coefficients that are all zero keeps the polynomial. */
  lemma TruncateSame(a: Poly, d: nat)
    requires d <= |a| && forall i: nat :: d <= i ==> Coef(a, i) == 0
    ensures Same(a[..d], a)
  {
    forall i: nat ensures Coef(a[..d], i) == Coef(a, i) {
      if i < d {
        assert a[..d][i] == a[i];
      }
    }
  }

  /** Subtracting c*x^(d-e)*b with c = lc(r)/lc(b) mod p kills every coefficient from d upwards. */
  lemma LeadCancels(r: Poly, b: Poly, p: int, inv: int, c: int, k: nat, r1: Poly)
    requires IsPrime(p) && !IsZero(r) && !IsZero(b) && k == Degree(r) - Degree(b)
    requires (b[Degree(b)] * inv) % p == 1 && c == (r[Degree(r)] * inv) % p
    requires r1 == Reduce(Sub(r, Scale(c, ShiftN(b, k))), p)
    ensures Degree(r) <= |r1|
    ensures forall i: nat :: Degree(r) <= i ==> Coef(r1, i) == 0
  {
    forall i: nat | Degree(r) <= i ensures Coef(r1, i) == 0 {
      LeadCancelsAt(r, b, p, inv, c, k, r1, i);
    }
  }

  lemma LeadCancelsAt(r: Poly, b: Poly, p: int, inv: int, c: int, k: nat, r1: Poly, i: nat)
    requires IsPrime(p) && !IsZero(r) && !IsZero(b) && k == Degree(r) - Degree(b)
    requires (b[Degree(b)] * inv) % p == 1 && c == (r[Degree(r)] * inv) % p
    requires r1 == Reduce(Sub(r, Scale(c, ShiftN(b, k))), p) && Degree(r) <= i
    ensures Coef(r1, i) == 0
  {
    var d, e := Degree(r), Degree(b);
    ShiftNCoef(b, k);
    var u := Scale(c, ShiftN(b, k));
    var sb := Coef(ShiftN(b, k), i);
    assert sb == Coef(b, i - k);
    assert Coef(u, i) == c * sb;
    var v := Coef(r, i) - c * sb;
    assert Coef(r1, i) == v % p;
    if i == d {
      assert sb == b[e] && Coef(r, i) == r[d];
      LeadTop(r[d], b[e], inv, p, c, c * sb);
    } else {
      assert Coef(r, i) == 0 && sb == 0;
      assert v == 0;
      DivModUnique(v, p, 0, 0);
    }
  }

  /** At the degree of r the two leading terms cancel modulo p. */
  lemma LeadTop(rd: int, be: int, inv: int, p: int, c: int, ud: int)
    requires p > 0 && (be * inv) % p == 1 && c == (rd * inv) % p && ud == c * be
    ensures (rd - ud) % p == 0
  {
    CancelLead(rd, be, inv, p);
  }

  /** The congruence chain behind one cancellation step of DivRemMod. */
  lemma DivRemStep(a: Poly, b: Poly, p: int, r: Poly, s: Poly, r1: Poly, r2: Poly,
                   m: Poly, q': Poly, rem: Poly, q: Poly)
    requires p > 0
    requires Cong(r, a, p)
    requires Same(s, Mul(m, b))
    requires r1 == Reduce(Sub(r, s), p) && Same(r2, r1)
    requires Cong(r2, Add(Mul(q', b), rem), p)
    requires q == Reduce(Add(m, q'), p)
    ensures Cong(a, Add(Mul(q, b), rem), p)
  {
    var x := Add(Add(Mul(q', b), rem), Mul(m, b));
    DivRemCancel(b, p, r, s, r1, r2, m, q', rem);
    DivRemQuotient(b, p, m, q', rem, q);
    CongTrans(r, x, Add(Mul(q, b), rem), p);
    CongSym(r, a, p);
    CongTrans(a, r, Add(Mul(q, b), rem), p);
  }

  /** r == (r - s) + s, where r - s is congruent to r2 and so to q'*b + rem. */
  lemma DivRemCancel(b: Poly, p: int, r: Poly, s: Poly, r1: Poly, r2: Poly,
                     m: Poly, q': Poly, rem: Poly)
    requires p > 0
    requires Same(s, Mul(m, b))
    requires r1 == Reduce(Sub(r, s), p) && Same(r2, r1)
    requires Cong(r2, Add(Mul(q', b), rem), p)
    ensures Cong(r, Add(Add(Mul(q', b), rem), Mul(m, b)), p)
  {
    ReduceCong(Sub(r, s), p);
    SameIsCong(r2, r1, p);
    CongTrans(r2, r1, Sub(r, s), p);
    CongSym(r2, Sub(r, s), p);
    CongTrans(Sub(r, s), r2, Add(Mul(q', b), rem), p);
    SameIsCong(s, Mul(m, b), p);
    CongAdd(Sub(r, s), Add(Mul(q', b), rem), s, Mul(m, b), p);
    SubAddBack(r, s);
    SameIsCong(r, Add(Sub(r, s), s), p);
    CongTrans(r, Add(Sub(r, s), s), Add(Add(Mul(q', b), rem), Mul(m, b)), p);
  }

  lemma SubAddBack(r: Poly, s: Poly)
    ensures Same(r, Add(Sub(r, s), s))
  {
  }

  /** q'*b + rem + m*b is congruent to q*b + rem when q reduces m + q'. */
  lemma DivRemQuotient(b: Poly, p: int, m: Poly, q': Poly, rem: Poly, q: Poly)
    requires p > 0
    requires q == Reduce(Add(m, q'), p)
    ensures Cong(Add(Add(Mul(q', b), rem), Mul(m, b)), Add(Mul(q, b), rem), p)
  {
    var x := Add(Add(Mul(q', b), rem), Mul(m, b));
    var y := Add(Mul(Add(m, q'), b), rem);
    MulAddLeft(m, q', b);
    AddRearrange(Mul(q', b), rem, Mul(m, b), Mul(Add(m, q'), b));
    SameIsCong(x, y, p);
    ReduceCong(Add(m, q'), p);
    CongMulLeft(q, Add(m, q'), b, p);
    SameIsCong(rem, rem, p);
    CongAdd(Mul(q, b), Mul(Add(m, q'), b), rem, rem, p);
    CongSym(Add(Mul(q, b), rem), y, p);
    CongTrans(x, y, Add(Mul(q, b), rem), p);
  }

  lemma AddRearrange(u: Poly, v: Poly, w: Poly, z: Poly)
    requires Same(z, Add(w, u))
    ensures Same(Add(Add(u, v), w), Add(z, v))
  {
  }
}
