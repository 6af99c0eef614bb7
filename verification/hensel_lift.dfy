/**
  The linear Hensel lift of PolyUtil.liftHensel on univariate integer polynomials.

  From a factorisation C == A*B modulo a prime p and a Bezout relation S*A + T*B == 1
  modulo p, each round computes the error E = (C - Ai*Bi)/Qi, the corrections S*E and T*E
  modulo p, balances them by division with remainder by B, and adds them cross-wise,
  scaled by Qi, to the factors modulo Qi*p.
*/
module HenselLift {
  import opened Numbers
  import opened Univariate
  import opened Outcomes

  /** Scaling by a multiple of p gives a polynomial divisible by p. */
  lemma ScaleByMultiple(q: int, a: Poly, p: int)
    requires Divides(p, q)
    ensures Cong(Scale(q, a), [], p)
  {
    forall i: nat ensures Divides(p, Coef(Scale(q, a), i) - Coef([], i)) {
      DividesLinear(p, q, 0, Coef(a, i), 0);
      assert Coef(a, i) * q + 0 * 0 == Coef(Scale(q, a), i) - Coef([], i);
    }
  }

  lemma MulNegRight(a: Poly, b: Poly)
    ensures Same(Mul(a, Sub(b, b)), [])
  {
    MulSameRight(a, Sub(b, b), []);
  }

  /** A*(Ap - Qp*B) + B*(Bp + A*Qp) is A*Ap + B*Bp: the quotient cancels. */
  lemma QuotientCancels(A: Poly, B: Poly, Ap: Poly, Bp: Poly, Qp: Poly)
    ensures Same(Add(Mul(A, Sub(Ap, Mul(Qp, B))), Mul(B, Add(Bp, Mul(A, Qp)))),
                 Add(Mul(A, Ap), Mul(B, Bp)))
  {
    var y := Mul(A, Mul(Qp, B));
    MulAddRight(A, Ap, Scale(-1, Mul(Qp, B)));
    MulScaleRight(A, -1, Mul(Qp, B));
    MulAddRight(B, Bp, Mul(A, Qp));
    MulAssoc(A, Qp, B);
    MulComm(Mul(A, Qp), B);
    SameTrans(y, Mul(Mul(A, Qp), B), Mul(B, Mul(A, Qp)));
  }

  /** A*(S*Ep) + B*(T*Ep) is (S*A + T*B)*Ep. */
  lemma BezoutFactor(A: Poly, B: Poly, S: Poly, T: Poly, Ep: Poly)
    ensures Same(Add(Mul(A, Mul(S, Ep)), Mul(B, Mul(T, Ep))), Mul(Add(Mul(S, A), Mul(T, B)), Ep))
  {
    MulAssoc(A, S, Ep);
    MulComm(A, S);
    MulSameLeft(Mul(A, S), Mul(S, A), Ep);
    MulAssoc(B, T, Ep);
    MulComm(B, T);
    MulSameLeft(Mul(B, T), Mul(T, B), Ep);
    MulAddLeft(Mul(S, A), Mul(T, B), Ep);
    SameTrans(Mul(A, Mul(S, Ep)), Mul(Mul(A, S), Ep), Mul(Mul(S, A), Ep)) by {
      SameSym(Mul(Mul(A, S), Ep), Mul(A, Mul(S, Ep)));
    }
    SameTrans(Mul(B, Mul(T, Ep)), Mul(Mul(B, T), Ep), Mul(Mul(T, B), Ep)) by {
      SameSym(Mul(Mul(B, T), Ep), Mul(B, Mul(T, Ep)));
    }
  }

  lemma MulOne(a: Poly)
    ensures Same(Mul([1], a), a)
  {
    MulComm([1], a);
    MulConstRight(a, 1);
  }

  /**
    The corrections of one round satisfy A*A1p + B*B1p == E modulo p, where
    A1p is the remainder of S*Ep by B and B1p is T*Ep + A*Qp.
  */
  lemma BezoutCorrection(A: Poly, B: Poly, S: Poly, T: Poly, E: Poly, p: int,
                         Ep: Poly, Ap: Poly, Bp: Poly, Qp: Poly, Rp: Poly, B1p: Poly)
    requires p > 0
    requires Cong(Add(Mul(S, A), Mul(T, B)), [1], p)
    requires Ep == Reduce(E, p)
    requires Ap == Reduce(Mul(S, Ep), p) && Bp == Reduce(Mul(T, Ep), p)
    requires Cong(Ap, Add(Mul(Qp, B), Rp), p)
    requires B1p == Reduce(Add(Bp, Mul(A, Qp)), p)
    ensures Cong(Add(Mul(A, Rp), Mul(B, B1p)), E, p)
  {
    // Rp == Ap - Qp*B and B1p == Bp + A*Qp modulo p
    RemainderCong(Ap, Qp, B, Rp, p);
    ReduceCong(Add(Bp, Mul(A, Qp)), p);
    CongMulRight(A, Rp, Sub(Ap, Mul(Qp, B)), p);
    CongMulRight(B, B1p, Add(Bp, Mul(A, Qp)), p);
    var x2 := Add(Mul(A, Sub(Ap, Mul(Qp, B))), Mul(B, Add(Bp, Mul(A, Qp))));
    CongAdd(Mul(A, Rp), Mul(A, Sub(Ap, Mul(Qp, B))), Mul(B, B1p), Mul(B, Add(Bp, Mul(A, Qp))), p);
    // ... which is A*Ap + B*Bp
    QuotientCancels(A, B, Ap, Bp, Qp);
    var x3 := Add(Mul(A, Ap), Mul(B, Bp));
    SameIsCong(x2, x3, p);
    CongTrans(Add(Mul(A, Rp), Mul(B, B1p)), x2, x3, p);
    // ... congruent to A*(S*Ep) + B*(T*Ep) == (S*A + T*B)*Ep
    ReduceCong(Mul(S, Ep), p);
    ReduceCong(Mul(T, Ep), p);
    CongMulRight(A, Ap, Mul(S, Ep), p);
    CongMulRight(B, Bp, Mul(T, Ep), p);
    var x4 := Add(Mul(A, Mul(S, Ep)), Mul(B, Mul(T, Ep)));
    CongAdd(Mul(A, Ap), Mul(A, Mul(S, Ep)), Mul(B, Bp), Mul(B, Mul(T, Ep)), p);
    CongTrans(Add(Mul(A, Rp), Mul(B, B1p)), x3, x4, p);
    BezoutFactor(A, B, S, T, Ep);
    var x5 := Mul(Add(Mul(S, A), Mul(T, B)), Ep);
    SameIsCong(x4, x5, p);
    CongTrans(Add(Mul(A, Rp), Mul(B, B1p)), x4, x5, p);
    // ... congruent to 1*Ep == Ep, congruent to E
    CongMulLeft(Add(Mul(S, A), Mul(T, B)), [1], Ep, p);
    CongTrans(Add(Mul(A, Rp), Mul(B, B1p)), x5, Mul([1], Ep), p);
    MulOne(Ep);
    SameIsCong(Mul([1], Ep), Ep, p);
    CongTrans(Add(Mul(A, Rp), Mul(B, B1p)), Mul([1], Ep), Ep, p);
    ReduceCong(E, p);
    CongTrans(Add(Mul(A, Rp), Mul(B, B1p)), Ep, E, p);
  }

  /** From Ap == Qp*B + Rp modulo p: Rp == Ap - Qp*B modulo p. */
  lemma RemainderCong(Ap: Poly, Qp: Poly, B: Poly, Rp: Poly, p: int)
    requires Cong(Ap, Add(Mul(Qp, B), Rp), p)
    ensures Cong(Rp, Sub(Ap, Mul(Qp, B)), p)
  {
    forall i: nat ensures Divides(p, Coef(Rp, i) - Coef(Sub(Ap, Mul(Qp, B)), i)) {
      var d := Coef(Ap, i) - Coef(Add(Mul(Qp, B), Rp), i);
      assert Divides(p, d);
      DividesLinear(p, d, 0, -1, 0);
    }
  }

  /**
    One update of a factor modulo Mm == Q*p: reducing Ai, adding Q times the reduced
    correction and lifting back gives Ai + Q*Eb modulo Q*p.
  */
  lemma LiftUpdate(Ai: Poly, Eb: Poly, Q: int, p: int, Mm: int, Qm: int, Am': Poly)
    requires Q > 0 && p > 1 && Mm == Q * p && Qm == Q % Mm
    requires Am' == Reduce(Add(Reduce(Ai, Mm), Reduce(Scale(Qm, Reduce(Eb, Mm)), Mm)), Mm)
    ensures Reduced(Am', Mm)
    ensures Cong(Lift(Am', Mm), Add(Ai, Scale(Q, Eb)), Mm)
  {
    assert Mm > 0 && Q < Mm by {
      assert Q * p >= Q * 2;
    }
    DivModUnique(Q, Mm, 0, Q);
    var s := Reduce(Scale(Qm, Reduce(Eb, Mm)), Mm);
    ReduceCong(Eb, Mm);
    CongScale(Q, Reduce(Eb, Mm), Eb, Mm);
    ReduceCong(Scale(Q, Reduce(Eb, Mm)), Mm);
    CongTrans(s, Scale(Q, Reduce(Eb, Mm)), Scale(Q, Eb), Mm);
    ReduceCong(Ai, Mm);
    CongAdd(Reduce(Ai, Mm), Ai, s, Scale(Q, Eb), Mm);
    ReduceCong(Add(Reduce(Ai, Mm), s), Mm);
    CongTrans(Am', Add(Reduce(Ai, Mm), s), Add(Ai, Scale(Q, Eb)), Mm);
    LiftCong(Am', Mm);
    CongTrans(Lift(Am', Mm), Am', Add(Ai, Scale(Q, Eb)), Mm);
  }

  lemma ExpansionArith(q: int, xy: int, xv: int, uy: int, uv: int, xyv: int, uyv: int, cw: int)
    requires xyv == xy + q * xv && uyv == uy + q * uv && cw == xv + uy + q * uv
    ensures xyv + q * uyv == xy + q * cw
  {
    assert q * cw == q * xv + q * uyv;
  }

  /** (x + q*u)*(y + q*v) == x*y + q*(x*v + u*y + q*(u*v)). */
  lemma ProductExpansion(x: Poly, y: Poly, u: Poly, v: Poly, q: int)
    ensures Same(Mul(Add(x, Scale(q, u)), Add(y, Scale(q, v))),
                 Add(Mul(x, y), Scale(q, Add(Add(Mul(x, v), Mul(u, y)), Scale(q, Mul(u, v))))))
  {
    var yv := Add(y, Scale(q, v));
    MulAddLeft(x, Scale(q, u), yv);
    MulAddRight(x, y, Scale(q, v));
    MulScaleRight(x, q, v);
    MulScaleLeft(q, u, yv);
    MulAddRight(u, y, Scale(q, v));
    MulScaleRight(u, q, v);
    ProductExpansionCoefs(x, y, u, v, q);
  }

  lemma ProductExpansionCoefs(x: Poly, y: Poly, u: Poly, v: Poly, q: int)
    requires Same(Mul(x, Add(y, Scale(q, v))), Add(Mul(x, y), Scale(q, Mul(x, v))))
    requires Same(Mul(u, Add(y, Scale(q, v))), Add(Mul(u, y), Scale(q, Mul(u, v))))
    requires Same(Mul(Add(x, Scale(q, u)), Add(y, Scale(q, v))),
                  Add(Mul(x, Add(y, Scale(q, v))), Mul(Scale(q, u), Add(y, Scale(q, v)))))
    requires Same(Mul(Scale(q, u), Add(y, Scale(q, v))), Scale(q, Mul(u, Add(y, Scale(q, v)))))
    ensures Same(Mul(Add(x, Scale(q, u)), Add(y, Scale(q, v))),
                 Add(Mul(x, y), Scale(q, Add(Add(Mul(x, v), Mul(u, y)), Scale(q, Mul(u, v))))))
  {
    var yv := Add(y, Scale(q, v));
    var lhs := Mul(Add(x, Scale(q, u)), yv);
    var rhs := Add(Mul(x, y), Scale(q, Add(Add(Mul(x, v), Mul(u, y)), Scale(q, Mul(u, v)))));
    var w := Add(Add(Mul(x, v), Mul(u, y)), Scale(q, Mul(u, v)));
    forall i: nat ensures Coef(lhs, i) == Coef(rhs, i) {
      var xy, xv, uy, uv := Coef(Mul(x, y), i), Coef(Mul(x, v), i), Coef(Mul(u, y), i), Coef(Mul(u, v), i);
      var xyv, uyv := Coef(Mul(x, yv), i), Coef(Mul(u, yv), i);
      assert xyv == xy + q * xv;
      assert uyv == uy + q * uv;
      assert Coef(Mul(Scale(q, u), yv), i) == q * uyv;
      assert Coef(lhs, i) == xyv + q * uyv;
      var cw := Coef(w, i);
      assert cw == xv + uy + q * uv;
      assert Coef(rhs, i) == xy + q * cw;
      ExpansionArith(q, xy, xv, uy, uv, xyv, uyv, cw);
    }
  }

  /**
    The invariant survives a round: if C == Ai*Bi modulo Q with error E == (C - Ai*Bi)/Q,
    and the corrections satisfy A*A1p + B*B1p == E modulo p, then the updated factors
    Ai' == Ai + Q*Eb and Bi' == Bi + Q*Ea modulo Q*p satisfy C == Ai'*Bi' modulo Q*p and
    still reduce to A and B modulo p.
  */
  lemma RoundKeepsInvariant(C: Poly, A: Poly, B: Poly, Ai: Poly, Bi: Poly, E: Poly,
                            A1p: Poly, B1p: Poly, Ea: Poly, Eb: Poly, Q: int, p: int,
                            Ai': Poly, Bi': Poly)
    requires p > 0 && Q > 0 && Divides(p, Q)
    requires Same(Scale(Q, E), Sub(C, Mul(Ai, Bi)))
    requires Cong(Ai, A, p) && Cong(Bi, B, p) && Cong(Ea, A1p, p) && Cong(Eb, B1p, p)
    requires Cong(Add(Mul(A, A1p), Mul(B, B1p)), E, p)
    requires Cong(Ai', Add(Ai, Scale(Q, Eb)), Q * p) && Cong(Bi', Add(Bi, Scale(Q, Ea)), Q * p)
    ensures Cong(C, Mul(Ai', Bi'), Q * p)
    ensures Cong(Ai', A, p) && Cong(Bi', B, p)
  {
    var w := Add(Add(Mul(Ai, Ea), Mul(Eb, Bi)), Scale(Q, Mul(Eb, Ea)));
    CorrectionCong(A, B, Ai, Bi, E, A1p, B1p, Ea, Eb, Q, p);
    ErrorTermCong(C, Ai, Bi, E, w, Q, p);
    ExpandedProductCong(C, Ai, Bi, Ea, Eb, Q, p, Ai', Bi');
    // modulo p the corrections vanish
    UpdateKeepsResidue(Ai', Ai, Eb, A, Q, p);
    UpdateKeepsResidue(Bi', Bi, Ea, B, Q, p);
  }

  /** C == Ai*Bi + Q*E and E == w modulo p give C == Ai*Bi + Q*w modulo Q*p. */
  lemma ErrorTermCong(C: Poly, Ai: Poly, Bi: Poly, E: Poly, w: Poly, Q: int, p: int)
    requires Same(Scale(Q, E), Sub(C, Mul(Ai, Bi))) && Cong(w, E, p)
    ensures Cong(C, Add(Mul(Ai, Bi), Scale(Q, w)), Q * p)
  {
    var m := Q * p;
    CongSym(w, E, p);
    CongScaleModulus(Q, E, w, p);
    var c1 := Add(Mul(Ai, Bi), Scale(Q, E));
    assert Same(C, c1);
    SameIsCong(C, c1, m);
    SameIsCong(Mul(Ai, Bi), Mul(Ai, Bi), m);
    CongAdd(Mul(Ai, Bi), Mul(Ai, Bi), Scale(Q, E), Scale(Q, w), m);
    CongTrans(C, c1, Add(Mul(Ai, Bi), Scale(Q, w)), m);
  }

  /** C == Ai*Bi + Q*w, with w the cross terms of the expanded product, gives C == Ai'*Bi'. */
  lemma ExpandedProductCong(C: Poly, Ai: Poly, Bi: Poly, Ea: Poly, Eb: Poly, Q: int, p: int,
                            Ai': Poly, Bi': Poly)
    requires Cong(C, Add(Mul(Ai, Bi), Scale(Q, Add(Add(Mul(Ai, Ea), Mul(Eb, Bi)), Scale(Q, Mul(Eb, Ea))))), Q * p)
    requires Cong(Ai', Add(Ai, Scale(Q, Eb)), Q * p) && Cong(Bi', Add(Bi, Scale(Q, Ea)), Q * p)
    ensures Cong(C, Mul(Ai', Bi'), Q * p)
  {
    var m := Q * p;
    var c2 := Add(Mul(Ai, Bi), Scale(Q, Add(Add(Mul(Ai, Ea), Mul(Eb, Bi)), Scale(Q, Mul(Eb, Ea)))));
    ProductExpansion(Ai, Bi, Eb, Ea, Q);
    var p2 := Mul(Add(Ai, Scale(Q, Eb)), Add(Bi, Scale(Q, Ea)));
    SameSym(p2, c2);
    SameIsCong(c2, p2, m);
    CongTrans(C, c2, p2, m);
    CongSym(Ai', Add(Ai, Scale(Q, Eb)), m);
    CongSym(Bi', Add(Bi, Scale(Q, Ea)), m);
    CongMul(Add(Ai, Scale(Q, Eb)), Ai', Add(Bi, Scale(Q, Ea)), Bi', m);
    CongTrans(C, p2, Mul(Ai', Bi'), m);
  }

  /** Ai' == Ai + Q*Eb modulo Q*p and p | Q give Ai' == Ai modulo p. */
  lemma UpdateKeepsResidue(Ai': Poly, Ai: Poly, Eb: Poly, A: Poly, Q: int, p: int)
    requires p > 0 && Divides(p, Q) && Cong(Ai, A, p)
    requires Cong(Ai', Add(Ai, Scale(Q, Eb)), Q * p)
    ensures Cong(Ai', A, p)
  {
    assert Q * p == p * Q;
    CongDivisor(Ai', Add(Ai, Scale(Q, Eb)), p, Q);
    AddMultipleCong(Ai, A, Q, Eb, p);
    CongTrans(Ai', Add(Ai, Scale(Q, Eb)), A, p);
  }

  /** Ai*Ea + Eb*Bi == A*A1p + B*B1p modulo p. */
  lemma CrossTermsCong(A: Poly, B: Poly, Ai: Poly, Bi: Poly,
                       A1p: Poly, B1p: Poly, Ea: Poly, Eb: Poly, p: int)
    requires Cong(Ai, A, p) && Cong(Bi, B, p) && Cong(Ea, A1p, p) && Cong(Eb, B1p, p)
    ensures Cong(Add(Mul(Ai, Ea), Mul(Eb, Bi)), Add(Mul(A, A1p), Mul(B, B1p)), p)
  {
    CongMul(Ai, A, Ea, A1p, p);
    CongMul(Eb, B1p, Bi, B, p);
    MulComm(B1p, B);
    SameIsCong(Mul(B1p, B), Mul(B, B1p), p);
    CongTrans(Mul(Eb, Bi), Mul(B1p, B), Mul(B, B1p), p);
    CongAdd(Mul(Ai, Ea), Mul(A, A1p), Mul(Eb, Bi), Mul(B, B1p), p);
  }

  /** Adding a multiple of p keeps a congruence modulo p. */
  lemma AddMultipleCong(a: Poly, b: Poly, q: int, c: Poly, p: int)
    requires Divides(p, q) && Cong(a, b, p)
    ensures Cong(Add(a, Scale(q, c)), b, p)
  {
    ScaleByMultiple(q, c, p);
    CongAdd(a, b, Scale(q, c), [], p);
    assert Same(Add(b, []), b);
    SameIsCong(Add(b, []), b, p);
    CongTrans(Add(a, Scale(q, c)), Add(b, []), b, p);
  }

  /** Ai*Ea + Eb*Bi + Q*(Eb*Ea) == A*A1p + B*B1p == E modulo p. */
  lemma CorrectionCong(A: Poly, B: Poly, Ai: Poly, Bi: Poly, E: Poly,
                       A1p: Poly, B1p: Poly, Ea: Poly, Eb: Poly, Q: int, p: int)
    requires p > 0 && Divides(p, Q)
    requires Cong(Ai, A, p) && Cong(Bi, B, p) && Cong(Ea, A1p, p) && Cong(Eb, B1p, p)
    requires Cong(Add(Mul(A, A1p), Mul(B, B1p)), E, p)
    ensures Cong(Add(Add(Mul(Ai, Ea), Mul(Eb, Bi)), Scale(Q, Mul(Eb, Ea))), E, p)
  {
    var w := Add(Add(Mul(Ai, Ea), Mul(Eb, Bi)), Scale(Q, Mul(Eb, Ea)));
    CrossTermsCong(A, B, Ai, Bi, A1p, B1p, Ea, Eb, p);
    AddMultipleCong(Add(Mul(Ai, Ea), Mul(Eb, Bi)), Add(Mul(A, A1p), Mul(B, B1p)), Q, Mul(Eb, Ea), p);
    CongTrans(w, Add(Mul(A, A1p), Mul(B, B1p)), E, p);
  }

  /** The factorisation and Bezout hypotheses the lift assumes of its inputs. */
  ghost predicate LiftHypotheses(C: Poly, A: Poly, B: Poly, S: Poly, T: Poly, p: int)
  {
    Cong(C, Mul(A, B), p) && Cong(Add(Mul(S, A), Mul(T, B)), [1], p)
  }

  const NonzeroFactorsMsg := "A and B must be nonzero"
  const NotUnivariateMsg := "polynomial ring not univariate"
  const DegreeMsg := "deg(A)+deg(B) > deg(C)"

  /**
    PolyUtil.liftHensel: lifts C == A*B modulo p to factors Ai, Bi with C == Ai*Bi modulo
    p^(k+1), stopping once p^(k+1) reaches 2*M*p or the error C - Ai*Bi vanishes.
    The ghost `rounds` is the number k of completed rounds. A, B, S, T are polynomials
    over Z/p (reduced coefficients); nvar is the number of variables of C's ring.
  */
  method LiftHensel(C: Poly, M: int, A: Poly, B: Poly, S: Poly, T: Poly, p: int, nvar: nat)
    returns (r: Result<(Poly, Poly)>, ghost rounds: nat, ghost failed: (Poly, Poly))
    requires IsPrime(p)
    requires Reduced(A, p) && Reduced(B, p) && Reduced(S, p) && Reduced(T, p)
    ensures IsZero(C) ==> r == Ok((C, C))
    ensures !IsZero(C) && (IsZero(A) || IsZero(B)) ==> r == Err(NonzeroFactorsMsg)
    ensures !IsZero(C) && !IsZero(A) && !IsZero(B) && nvar != 1 ==> r == Err(NotUnivariateMsg)
    ensures r.Err? ==> r.msg in {NonzeroFactorsMsg, NotUnivariateMsg, DegreeMsg}
    ensures r.Err? && r.msg == DegreeMsg ==> !IsZero(C) && !IsZero(A) && !IsZero(B) && nvar == 1
    ensures r.Err? && r.msg == DegreeMsg ==> DegreeFails(C, M, A, B, S, T, p, rounds, failed)
    ensures r.Ok? && !IsZero(C) ==> LiftedFactors(C, M, A, B, S, T, p, rounds, r.value)
    ensures r == LinearLift(C, M, A, B, S, T, p, nvar)
  {
    rounds, failed := 0, ([], []);
    if IsZero(C) {
      return Ok((C, C)), 0, failed;
    }
    if IsZero(A) || IsZero(B) {
      return Err(NonzeroFactorsMsg), 0, failed;
    }
    if nvar != 1 {
      return Err(NotUnivariateMsg), 0, failed;
    }
    var Qi := p;
    var M2 := M * 2 * Qi;
    var Mm := Qi * Qi;
    var Ai := Lift(A, p);
    var Bi := Lift(B, p);
    if LiftHypotheses(C, A, B, S, T, p) {
      InitialLift(C, A, B, p);
    }
    r, rounds, failed := LiftRounds(C, M, M2, A, B, S, T, p, Ai, Bi, Mm);
  }

  /**
    What liftHensel promises of the factors (Ai, Bi) it returns after k rounds: the loop
    stopped because p^(k+1) reached 2*M*p or C == Ai*Bi exactly; it ran round k because
    p^k was still below 2*M*p; and, under the hypotheses, C == Ai*Bi modulo p^(k+1)
    with Ai, Bi reducing to A, B modulo p.
  */
  ghost predicate LiftedFactors(C: Poly, M: int, A: Poly, B: Poly, S: Poly, T: Poly, p: int,
                                k: nat, AB: (Poly, Poly))
  {
    var (Ai, Bi) := AB;
    && (Pow(p, k + 1) >= M * 2 * p || IsZero(Sub(C, Mul(Ai, Bi))))
    && (k > 0 ==> Pow(p, k) < M * 2 * p)
    && (k > 0 ==> Degree(Ai) + Degree(Bi) <= Degree(C))
    && (LiftHypotheses(C, A, B, S, T, p) ==>
          Cong(C, Mul(Ai, Bi), Pow(p, k + 1)) && Cong(Ai, A, p) && Cong(Bi, B, p))
  }

  /**
    The round k of liftHensel that raises the degree error, from factors (Ai, Bi): the
    loop ran it (p^(k+1) below 2*M*p and C - Ai*Bi nonzero) from a state that keeps the
    loop's invariant, and the corrected factors modulo p^(k+2) have degrees adding up to
    more than deg(C).
  */
  ghost predicate DegreeFails(C: Poly, M: int, A: Poly, B: Poly, S: Poly, T: Poly, p: int,
                              k: nat, AB: (Poly, Poly))
  {
    var (Ai, Bi) := AB;
    var Qi := Pow(p, k + 1);
    && IsPrime(p) && Reduced(B, p) && !IsZero(B) && Qi > 0 && Qi * p > 0
    && Qi < M * 2 * p && !IsZero(Sub(C, Mul(Ai, Bi)))
    && (k > 0 ==> Degree(Ai) + Degree(Bi) <= Degree(C))
    && (LiftHypotheses(C, A, B, S, T, p) ==>
          Cong(C, Mul(Ai, Bi), Qi) && Cong(Ai, A, p) && Cong(Bi, B, p))
    && var Mm := Qi * p;
       var AB' := LiftCorrections(C, A, B, S, T, p, Ai, Bi, Qi, Mm, Reduce(Ai, Mm), Reduce(Bi, Mm));
       Degree(AB'.0) + Degree(AB'.1) > Degree(C)
  }

  /**
    The factors after round k of liftHensel from (Ai, Bi): the corrections, computed with
    Qi == p^(k+1) and Mm == Qi*p, lifted symmetrically from modulo Mm.
  */
  ghost function NextFactors(C: Poly, A: Poly, B: Poly, S: Poly, T: Poly, p: int,
                             k: nat, AB: (Poly, Poly)): (Poly, Poly)
    requires IsPrime(p) && Reduced(B, p) && !IsZero(B)
  {
    PowerStep(p, k);
    var Qi := Pow(p, k + 1);
    var Mm := Qi * p;
    var AB' := LiftCorrections(C, A, B, S, T, p, AB.0, AB.1, Qi, Mm, Reduce(AB.0, Mm), Reduce(AB.1, Mm));
    (Lift(AB'.0, Mm), Lift(AB'.1, Mm))
  }

  /** The degree test of round k from (Ai, Bi): the corrections' degrees add up to at most deg(C). */
  ghost predicate DegreeTestPasses(C: Poly, A: Poly, B: Poly, S: Poly, T: Poly, p: int,
                                   k: nat, AB: (Poly, Poly))
    requires IsPrime(p) && Reduced(B, p) && !IsZero(B)
  {
    PowerStep(p, k);
    var Qi := Pow(p, k + 1);
    var Mm := Qi * p;
    var AB' := LiftCorrections(C, A, B, S, T, p, AB.0, AB.1, Qi, Mm, Reduce(AB.0, Mm), Reduce(AB.1, Mm));
    Degree(AB'.0) + Degree(AB'.1) <= Degree(C)
  }

  /**
    What the while loop of liftHensel returns from the factors AB after k rounds, with
    M2 == 2*M*p: AB once p^(k+1) reaches M2 or C - Ai*Bi vanishes, the degree error when
    round k fails the degree test, and otherwise what it returns after round k.
  */
  ghost function LiftLoop(C: Poly, M2: int, A: Poly, B: Poly, S: Poly, T: Poly, p: int,
                          k: nat, AB: (Poly, Poly)): Result<(Poly, Poly)>
    requires IsPrime(p) && Reduced(B, p) && !IsZero(B)
    decreases M2 - Pow(p, k + 1)
  {
    if Pow(p, k + 1) >= M2 || IsZero(Sub(C, Mul(AB.0, AB.1))) then Ok(AB)
    else if !DegreeTestPasses(C, A, B, S, T, p, k, AB) then Err(DegreeMsg)
    else
      PowerStep(p, k);
      LiftLoop(C, M2, A, B, S, T, p, k + 1, NextFactors(C, A, B, S, T, p, k, AB))
  }

  /**
    What liftHensel returns: (C, C) for a zero C, its argument errors, and otherwise the
    loop's result from the symmetric lifts of A and B.
  */
  ghost function LinearLift(C: Poly, M: int, A: Poly, B: Poly, S: Poly, T: Poly, p: int,
                            nvar: nat): Result<(Poly, Poly)>
    requires IsPrime(p) && Reduced(B, p)
  {
    if IsZero(C) then Ok((C, C))
    else if IsZero(A) || IsZero(B) then Err(NonzeroFactorsMsg)
    else if nvar != 1 then Err(NotUnivariateMsg)
    else LiftLoop(C, M * 2 * p, A, B, S, T, p, 0, (Lift(A, p), Lift(B, p)))
  }

  /** The while loop of liftHensel, from Qi == p and Mm == p*p. */
  method LiftRounds(C: Poly, ghost M: int, M2: int, A: Poly, B: Poly, S: Poly, T: Poly, p: int,
                    Ai0: Poly, Bi0: Poly, Mm0: int)
    returns (r: Result<(Poly, Poly)>, ghost rounds: nat, ghost failed: (Poly, Poly))
    requires IsPrime(p) && Reduced(A, p) && Reduced(B, p) && !IsZero(B) && !IsZero(C)
    requires M2 == M * 2 * p && Mm0 == p * p
    requires LiftHypotheses(C, A, B, S, T, p) ==>
      Cong(C, Mul(Ai0, Bi0), p) && Cong(Ai0, A, p) && Cong(Bi0, B, p)
    ensures r.Err? ==> r.msg == DegreeMsg && DegreeFails(C, M, A, B, S, T, p, rounds, failed)
    ensures r.Ok? ==> LiftedFactors(C, M, A, B, S, T, p, rounds, r.value)
    ensures r == LiftLoop(C, M2, A, B, S, T, p, 0, (Ai0, Bi0))
  {
    ghost var hyp := LiftHypotheses(C, A, B, S, T, p);
    var Qi, Mm, Ai, Bi := p, Mm0, Ai0, Bi0;
    var Am := Reduce(Ai, Mm);
    var Bm := Reduce(Bi, Mm);
    rounds, failed := 0, ([], []);
    MultipleDivides(p, 1);
    while Qi < M2
      invariant Qi == Pow(p, rounds + 1) && Qi > 0 && Divides(p, Qi) && Mm == Qi * p && Mm > 0
      invariant Am == Reduce(Ai, Mm) && Bm == Reduce(Bi, Mm)
      invariant rounds > 0 ==> Pow(p, rounds) < M2
      invariant rounds > 0 ==> Degree(Ai) + Degree(Bi) <= Degree(C)
      invariant hyp ==> Cong(C, Mul(Ai, Bi), Qi) && Cong(Ai, A, p) && Cong(Bi, B, p)
      invariant LiftLoop(C, M2, A, B, S, T, p, rounds, (Ai, Bi)) == LiftLoop(C, M2, A, B, S, T, p, 0, (Ai0, Bi0))
      decreases M2 - Qi
    {
      var E0 := Sub(C, Mul(Ai, Bi));
      if IsZero(E0) {
        break;
      }
      var ok, Ai', Bi' := LiftStep(C, M, A, B, S, T, p, Ai, Bi, Qi, Mm, Am, Bm, rounds);
      if !ok {
        return Err(DegreeMsg), rounds, (Ai, Bi);
      }
      PowerStep(p, rounds);
      Ai, Bi := Ai', Bi';
      Qi, Mm := Qi * p, Mm * p;
      rounds := rounds + 1;
      Am, Bm := Reduce(Ai, Mm), Reduce(Bi, Mm);
    }
    r := Ok((Ai, Bi));
  }

  /**
    One round of the loop of liftHensel from factors Ai, Bi known modulo Qi == p^(k+1):
    the corrected factors, lifted symmetrically from modulo Mm == Qi*p, or failure (the
    degree error) when the degrees of the corrections add up to more than deg(C).
  */
  method LiftStep(C: Poly, ghost M: int, A: Poly, B: Poly, S: Poly, T: Poly, p: int,
                  Ai: Poly, Bi: Poly, Qi: int, Mm: int, Am: Poly, Bm: Poly, ghost k: nat)
    returns (ok: bool, Ai': Poly, Bi': Poly)
    requires IsPrime(p) && Reduced(B, p) && !IsZero(B)
    requires Qi == Pow(p, k + 1) && Qi > 0 && Divides(p, Qi) && Mm == Qi * p && Mm > 0
    requires Qi < M * 2 * p && !IsZero(Sub(C, Mul(Ai, Bi)))
    requires Am == Reduce(Ai, Mm) && Bm == Reduce(Bi, Mm)
    requires k > 0 ==> Degree(Ai) + Degree(Bi) <= Degree(C)
    requires LiftHypotheses(C, A, B, S, T, p) ==>
      Cong(C, Mul(Ai, Bi), Qi) && Cong(Ai, A, p) && Cong(Bi, B, p)
    ensures !ok ==> DegreeFails(C, M, A, B, S, T, p, k, (Ai, Bi))
    ensures ok ==> Degree(Ai') + Degree(Bi') <= Degree(C)
    ensures var AB' := LiftCorrections(C, A, B, S, T, p, Ai, Bi, Qi, Mm, Am, Bm);
      && (ok <==> Degree(AB'.0) + Degree(AB'.1) <= Degree(C))
      && (ok ==> Ai' == Lift(AB'.0, Mm) && Bi' == Lift(AB'.1, Mm))
    ensures ok <==> DegreeTestPasses(C, A, B, S, T, p, k, (Ai, Bi))
    ensures ok ==> (Ai', Bi') == NextFactors(C, A, B, S, T, p, k, (Ai, Bi))
    ensures ok && LiftHypotheses(C, A, B, S, T, p) ==>
      Cong(C, Mul(Ai', Bi'), Qi * p) && Cong(Ai', A, p) && Cong(Bi', B, p)
  {
    var (Am', Bm') := LiftCorrections(C, A, B, S, T, p, Ai, Bi, Qi, Mm, Am, Bm);
    if Degree(Am') + Degree(Bm') > Degree(C) {
      return false, Ai, Bi;
    }
    LiftKeepsDegree(Am', Mm);
    LiftKeepsDegree(Bm', Mm);
    if LiftHypotheses(C, A, B, S, T, p) {
      RoundStep(C, A, B, S, T, p, Ai, Bi, Qi, Mm, Am, Bm);
    }
    ok, Ai', Bi' := true, Lift(Am', Mm), Lift(Bm', Mm);
  }

  /** Multiplying by p moves to the next power of p. */
  lemma PowerStep(p: int, k: nat)
    requires p > 1
    ensures Pow(p, k + 1) > 0
    ensures Pow(p, k + 2) == Pow(p, k + 1) * p > Pow(p, k + 1)
    ensures Divides(p, Pow(p, k + 2)) && Pow(p, k + 1) * p * p > 0
  {
    var q := Pow(p, k + 1);
    PowPositive(p, k + 1);
    assert Pow(p, k + 2) == p * q;
    MulGrows(q, p);
    MulGrows(q * p, p);
    MultipleDivides(p, q);
  }

  lemma MulGrows(q: int, p: int)
    requires q > 0 && p > 1
    ensures q * p > q > 0
  {
  }

  /**
    The body of one round of liftHensel up to the degree check: the error E = (C - Ai*Bi)/Qi,
    its corrections A1p, B1p modulo p, and the updated factors Am + Qi*Eb, Bm + Qi*Ea
    modulo Mm, where Ea, Eb are the symmetric lifts of A1p, B1p.
  */
  function LiftCorrections(C: Poly, A: Poly, B: Poly, S: Poly, T: Poly, p: int,
                           Ai: Poly, Bi: Poly, Qi: int, Mm: int, Am: Poly, Bm: Poly): (c: (Poly, Poly))
    requires IsPrime(p) && Reduced(B, p) && !IsZero(B) && Qi > 0 && Mm > 0
    ensures Reduced(c.0, Mm) && Reduced(c.1, Mm)
  {
    var E := DivCoefs(Sub(C, Mul(Ai, Bi)), Qi);
    var Ep := Reduce(E, p);
    var Ap := Reduce(Mul(S, Ep), p);
    var Bp := Reduce(Mul(T, Ep), p);
    var QR := DivRemMod(Ap, B, p);
    var A1p := QR.1;
    var B1p := Reduce(Add(Bp, Mul(A, QR.0)), p);
    var Ea := Lift(A1p, p);
    var Eb := Lift(B1p, p);
    var Qm := Qi % Mm;
    var Eam := Reduce(Scale(Qm, Reduce(Ea, Mm)), Mm);
    var Ebm := Reduce(Scale(Qm, Reduce(Eb, Mm)), Mm);
    ReduceCong(Add(Am, Ebm), Mm);
    ReduceCong(Add(Bm, Eam), Mm);
    (Reduce(Add(Am, Ebm), Mm), Reduce(Add(Bm, Eam), Mm))
  }

  /** One round of the lift keeps C == Ai*Bi modulo the next power of p. */
  lemma RoundStep(C: Poly, A: Poly, B: Poly, S: Poly, T: Poly, p: int,
                  Ai: Poly, Bi: Poly, Qi: int, Mm: int, Am: Poly, Bm: Poly)
    requires IsPrime(p) && Reduced(B, p) && !IsZero(B) && Qi > 0 && Divides(p, Qi) && Mm == Qi * p
    requires Am == Reduce(Ai, Mm) && Bm == Reduce(Bi, Mm)
    requires LiftHypotheses(C, A, B, S, T, p)
    requires Cong(C, Mul(Ai, Bi), Qi) && Cong(Ai, A, p) && Cong(Bi, B, p)
    ensures Mm > 0
    ensures var (Am', Bm') := LiftCorrections(C, A, B, S, T, p, Ai, Bi, Qi, Mm, Am, Bm);
      && Cong(C, Mul(Lift(Am', Mm), Lift(Bm', Mm)), Qi * p)
      && Cong(Lift(Am', Mm), A, p) && Cong(Lift(Bm', Mm), B, p)
  {
    MulGrows(Qi, p);
    var E := DivCoefs(Sub(C, Mul(Ai, Bi)), Qi);
    var Ep := Reduce(E, p);
    var Ap := Reduce(Mul(S, Ep), p);
    var Bp := Reduce(Mul(T, Ep), p);
    var QR := DivRemMod(Ap, B, p);
    var B1p := Reduce(Add(Bp, Mul(A, QR.0)), p);
    var Ea := Lift(QR.1, p);
    var Eb := Lift(B1p, p);
    var Qm := Qi % Mm;
    var Am' := Reduce(Add(Am, Reduce(Scale(Qm, Reduce(Eb, Mm)), Mm)), Mm);
    var Bm' := Reduce(Add(Bm, Reduce(Scale(Qm, Reduce(Ea, Mm)), Mm)), Mm);
    assert LiftCorrections(C, A, B, S, T, p, Ai, Bi, Qi, Mm, Am, Bm) == (Am', Bm');
    RoundKeepsCongruence(C, A, B, S, T, p, Ai, Bi, Qi, Mm, E, Ep, Ap, Bp, QR.0, QR.1, B1p, Ea, Eb, Qm, Am', Bm');
  }

  /** The congruences of one round, over the values it computes. */
  lemma RoundKeepsCongruence(C: Poly, A: Poly, B: Poly, S: Poly, T: Poly, p: int,
                  Ai: Poly, Bi: Poly, Qi: int, Mm: int,
                  E: Poly, Ep: Poly, Ap: Poly, Bp: Poly, Qp: Poly, A1p: Poly, B1p: Poly,
                  Ea: Poly, Eb: Poly, Qm: int, Am': Poly, Bm': Poly)
    requires p > 1 && Qi > 0 && Divides(p, Qi) && Mm == Qi * p && Qm == Qi % Mm
    requires LiftHypotheses(C, A, B, S, T, p)
    requires Cong(C, Mul(Ai, Bi), Qi) && Cong(Ai, A, p) && Cong(Bi, B, p)
    requires E == DivCoefs(Sub(C, Mul(Ai, Bi)), Qi) && Ep == Reduce(E, p)
    requires Ap == Reduce(Mul(S, Ep), p) && Bp == Reduce(Mul(T, Ep), p)
    requires Cong(Ap, Add(Mul(Qp, B), A1p), p) && Reduced(A1p, p)
    requires B1p == Reduce(Add(Bp, Mul(A, Qp)), p)
    requires Ea == Lift(A1p, p) && Eb == Lift(B1p, p)
    requires Am' == Reduce(Add(Reduce(Ai, Mm), Reduce(Scale(Qm, Reduce(Eb, Mm)), Mm)), Mm)
    requires Bm' == Reduce(Add(Reduce(Bi, Mm), Reduce(Scale(Qm, Reduce(Ea, Mm)), Mm)), Mm)
    ensures Cong(C, Mul(Lift(Am', Mm), Lift(Bm', Mm)), Qi * p)
    ensures Cong(Lift(Am', Mm), A, p) && Cong(Lift(Bm', Mm), B, p)
  {
    MulGrows(Qi, p);
    LiftUpdate(Ai, Eb, Qi, p, Mm, Qm, Am');
    LiftUpdate(Bi, Ea, Qi, p, Mm, Qm, Bm');
    ErrorIsExact(C, Ai, Bi, Qi);
    BezoutCorrection(A, B, S, T, E, p, Ep, Ap, Bp, Qp, A1p, B1p);
    ReduceCong(Add(Bp, Mul(A, Qp)), p);
    LiftCong(A1p, p);
    LiftCong(B1p, p);
    RoundKeepsInvariant(C, A, B, Ai, Bi, E, A1p, B1p, Ea, Eb, Qi, p, Lift(Am', Mm), Lift(Bm', Mm));
  }

  /** The starting lifts of A and B keep C == Ai*Bi modulo p. */
  lemma InitialLift(C: Poly, A: Poly, B: Poly, p: int)
    requires p > 0 && Reduced(A, p) && Reduced(B, p) && Cong(C, Mul(A, B), p)
    ensures Cong(C, Mul(Lift(A, p), Lift(B, p)), p)
    ensures Cong(Lift(A, p), A, p) && Cong(Lift(B, p), B, p)
  {
    LiftCong(A, p);
    LiftCong(B, p);
    CongSym(Lift(A, p), A, p);
    CongSym(Lift(B, p), B, p);
    CongMul(A, Lift(A, p), B, Lift(B, p), p);
    CongTrans(C, Mul(A, B), Mul(Lift(A, p), Lift(B, p)), p);
  }

  /** C == Ai*Bi modulo Q makes the division of the error by Q exact. */
  lemma ErrorIsExact(C: Poly, Ai: Poly, Bi: Poly, Q: int)
    requires Q > 0 && Cong(C, Mul(Ai, Bi), Q)
    ensures Same(Scale(Q, DivCoefs(Sub(C, Mul(Ai, Bi)), Q)), Sub(C, Mul(Ai, Bi)))
  {
    var e := Sub(C, Mul(Ai, Bi));
    forall i: nat ensures Divides(Q, Coef(e, i) - Coef([], i)) {
      assert Coef(e, i) - Coef([], i) == Coef(C, i) - Coef(Mul(Ai, Bi), i);
    }
    ExactQuotient(e, Q);
  }
}
