/**
  The recursive representation of a sparse polynomial (PolyUtil.recursive and
  distribute): a polynomial in n variables seen as a polynomial in its first i
  variables whose coefficients are polynomials in the remaining n - i. An exponent
  vector e splits into its head e[..i] (ExpVector.contract(0, i)) and its tail e[i..];
  combine is concatenation. Also coeffMaxDegree, the largest degree among the
  coefficient polynomials.
*/
module RecursivePoly {
  import opened SparsePoly
  import opened Outcomes

  /** A polynomial with polynomial coefficients: head exponent -> coefficient polynomial. */
  type RPoly = map<Exp, SPoly>

  const DistributeCollisionMsg := "PolyUtil debug error"

  /** GenPolynomial never stores a zero coefficient. */
  ghost predicate NonzeroCoefficients(A: SPoly)
  {
    forall e :: e in A ==> A[e] != 0
  }

  /** GenPolynomial.sum(a, g): adds the monomial a*x^g, dropping a term that cancels. */
  function SumTerm(p: SPoly, g: Exp, a: int): (q: SPoly)
    ensures forall h :: Get(q, h) == Get(p, h) + (if h == g then a else 0)
    ensures NonzeroCoefficients(p) ==> NonzeroCoefficients(q)
  {
    var v := Get(p, g) + a;
    if v == 0 then p - {g} else p[g := v]
  }

  // ---------------------------------------------------------------------------------
  // recursive

  /**
    B is the recursive form of A with i head variables: every head has length i and a
    nonzero coefficient polynomial, the coefficient of x^f y^g in B is that of x^(f+g) in
    A, and every term of A appears.
  */
  ghost predicate IsRecursive(A: SPoly, i: nat, B: RPoly)
  {
    && (forall f :: f in B ==> |f| == i && B[f] != map[])
    && (forall f, g :: f in B && g in B[f] ==> f + g in A && B[f][g] == A[f + g])
    && (forall e :: e in A ==> |e| >= i && e[..i] in B && e[i..] in B[e[..i]])
  }

  /**
    PolyUtil.recursive: each term a*x^e of A is added, as a*y^(e[i..]), to the
    coefficient polynomial stored under e[..i] (zero when absent).
  */
  method Recursive(A: SPoly, i: nat) returns (B: RPoly)
    requires NonzeroCoefficients(A) && forall e :: e in A ==> |e| >= i
    ensures IsRecursive(A, i, B)
    ensures forall f :: f in B ==> NonzeroCoefficients(B[f])
  {
    B := map[];
    if A == map[] {
      return;
    }
    var todo := A.Keys;
    while todo != {}
      invariant todo <= A.Keys
      invariant forall f :: f in B ==> |f| == i && B[f] != map[] && NonzeroCoefficients(B[f])
      invariant forall f, g :: f in B && g in B[f] ==> f + g in A && f + g !in todo && B[f][g] == A[f + g]
      invariant forall e :: e in A && e !in todo ==> e[..i] in B && e[i..] in B[e[..i]]
      decreases |todo|
    {
      var e :| e in todo;
      var a := A[e];
      var f, g := e[..i], e[i..];
      var p := if f in B then B[f] else map[];
      NewTail(A, i, B, todo, e);
      p := SumTerm(p, g, a);
      ghost var B0 := B;
      B := B[f := p];
      todo := todo - {e};
      RecursiveStep(A, i, B0, B, todo, e);
    }
  }

  /** The tail of a term not yet added is new in its head's coefficient polynomial. */
  lemma NewTail(A: SPoly, i: nat, B: RPoly, todo: set<Exp>, e: Exp)
    requires e in todo && |e| >= i
    requires forall f, g :: f in B && g in B[f] ==> f + g !in todo
    ensures e[i..] !in (if e[..i] in B then B[e[..i]] else map[])
  {
    assert e == e[..i] + e[i..];
  }

  /** Adding one term keeps the invariant of recursive's loop. */
  lemma RecursiveStep(A: SPoly, i: nat, B0: RPoly, B: RPoly, todo: set<Exp>, e: Exp)
    requires e in A && e !in todo && NonzeroCoefficients(A) && forall e' :: e' in A ==> |e'| >= i
    requires forall f :: f in B0 ==> |f| == i && B0[f] != map[] && NonzeroCoefficients(B0[f])
    requires forall f, g :: f in B0 && g in B0[f] ==> f + g in A && f + g !in todo + {e} && B0[f][g] == A[f + g]
    requires forall e' :: e' in A && e' !in todo + {e} ==> e'[..i] in B0 && e'[i..] in B0[e'[..i]]
    requires e[i..] !in (if e[..i] in B0 then B0[e[..i]] else map[])
    requires B == B0[e[..i] := SumTerm(if e[..i] in B0 then B0[e[..i]] else map[], e[i..], A[e])]
    ensures forall f :: f in B ==> |f| == i && B[f] != map[] && NonzeroCoefficients(B[f])
    ensures forall f, g :: f in B && g in B[f] ==> f + g in A && f + g !in todo && B[f][g] == A[f + g]
    ensures forall e' :: e' in A && e' !in todo ==> e'[..i] in B && e'[i..] in B[e'[..i]]
  {
    var f, g := e[..i], e[i..];
    assert e == f + g;
    assert B[f] == (if f in B0 then B0[f] else map[])[g := A[e]];
    forall f', g' | f' in B && g' in B[f']
      ensures f' + g' in A && f' + g' !in todo && B[f'][g'] == A[f' + g']
    {
      if f' == f && g' == g {
        assert f' + g' == e;
      }
    }
  }

  // ---------------------------------------------------------------------------------
  // distribute

  /** Two different (head, tail) pairs of B that combine to the same exponent vector. */
  ghost predicate Collide(B: RPoly, e1: Exp, f1: Exp, e2: Exp, f2: Exp)
  {
    && e1 in B && f1 in B[e1] && e2 in B && f2 in B[e2]
    && (e1 != e2 || f1 != f2) && e1 + f1 == e2 + f2
  }

  ghost predicate HasCollision(B: RPoly)
  {
    exists e1, f1, e2, f2 :: Collide(B, e1, f1, e2, f2)
  }

  /** C is the distributed form of B: each term b*x^e y^f of B becomes b*x^(e+f), and nothing else is in C. */
  ghost predicate IsDistribution(B: RPoly, C: SPoly)
  {
    && (forall e, f :: e in B && f in B[e] ==> e + f in C && C[e + f] == B[e][f])
    && (forall g :: g in C ==> exists e, f :: e in B && f in B[e] && g == e + f)
  }

  /**
    The state of distribute's loops: the pairs in done have been written into C, each
    under its own combined exponent, recorded by origin.
  */
  ghost predicate Written(B: RPoly, C: SPoly, origin: map<Exp, (Exp, Exp)>, done: set<(Exp, Exp)>)
  {
    && (forall g :: g in C <==> g in origin)
    && (forall g :: g in origin ==>
          origin[g] in done && origin[g].0 + origin[g].1 == g
          && origin[g].0 in B && origin[g].1 in B[origin[g].0] && C[g] == B[origin[g].0][origin[g].1])
    && (forall pr :: pr in done ==> pr.0 in B && pr.1 in B[pr.0] && pr.0 + pr.1 in origin && origin[pr.0 + pr.1] == pr)
  }

  /**
    PolyUtil.distribute: puts every b*x^(e+f) into C and fails with "PolyUtil debug error"
    when an exponent vector is already present, which happens exactly when two terms of
    B combine to the same exponent vector.
  */
  method Distribute(B: RPoly) returns (r: Result<SPoly>)
    ensures r.Err? <==> HasCollision(B)
    ensures r.Err? ==> r.msg == DistributeCollisionMsg
    ensures r.Ok? ==> IsDistribution(B, r.value)
  {
    var C: SPoly := map[];
    if B == map[] {
      return Ok(C);
    }
    ghost var origin: map<Exp, (Exp, Exp)> := map[];
    ghost var done: set<(Exp, Exp)> := {};
    var todo := B.Keys;
    while todo != {}
      invariant todo <= B.Keys
      invariant Written(B, C, origin, done)
      invariant forall pr :: pr in done <==> pr.0 in B && pr.0 !in todo && pr.1 in B[pr.0]
      decreases |todo|
    {
      var e :| e in todo;
      var r';
      r', origin, done := DistributeCoefficient(B, e, C, origin, done);
      if r'.Err? {
        return r';
      }
      C := r'.value;
      todo := todo - {e};
    }
    WrittenComplete(B, C, origin, done);
    return Ok(C);
  }

  /** The inner loop of distribute: the terms of one coefficient polynomial B[e]. */
  method DistributeCoefficient(B: RPoly, e: Exp, C0: SPoly, ghost origin0: map<Exp, (Exp, Exp)>,
                               ghost done0: set<(Exp, Exp)>)
    returns (r: Result<SPoly>, ghost origin: map<Exp, (Exp, Exp)>, ghost done: set<(Exp, Exp)>)
    requires e in B && Written(B, C0, origin0, done0) && forall pr :: pr in done0 ==> pr.0 != e
    ensures r.Err? ==> HasCollision(B) && r.msg == DistributeCollisionMsg
    ensures r.Ok? ==> Written(B, r.value, origin, done)
    ensures r.Ok? ==> forall pr :: pr in done <==> pr in done0 || (pr.0 == e && pr.1 in B[e])
  {
    var C := C0;
    origin, done := origin0, done0;
    var P := B[e];
    var itodo := P.Keys;
    while itodo != {}
      invariant itodo <= P.Keys
      invariant Written(B, C, origin, done)
      invariant forall pr :: pr in done <==> pr in done0 || (pr.0 == e && pr.1 in P && pr.1 !in itodo)
      decreases |itodo|
    {
      var f :| f in itodo;
      var g := e + f;
      if g in C {
        assert Collide(B, origin[g].0, origin[g].1, e, f);
        return Err(DistributeCollisionMsg), origin, done;
      }
      C := C[g := P[f]];
      origin := origin[g := (e, f)];
      done := done + {(e, f)};
      itodo := itodo - {f};
    }
    return Ok(C), origin, done;
  }

  /** Once every pair is written, no two pairs collide and C is the distribution. */
  lemma WrittenComplete(B: RPoly, C: SPoly, origin: map<Exp, (Exp, Exp)>, done: set<(Exp, Exp)>)
    requires Written(B, C, origin, done)
    requires forall pr :: pr in done <==> pr.0 in B && pr.1 in B[pr.0]
    ensures !HasCollision(B) && IsDistribution(B, C)
  {
    forall e1, f1, e2, f2 | e1 in B && f1 in B[e1] && e2 in B && f2 in B[e2] && e1 + f1 == e2 + f2
      ensures e1 == e2 && f1 == f2
    {
      assert (e1, f1) in done && (e2, f2) in done;
    }
    forall g | g in C ensures exists e, f :: e in B && f in B[e] && g == e + f {
      var pr := origin[g];
      assert pr.0 in B && pr.1 in B[pr.0] && g == pr.0 + pr.1;
    }
    forall e, f | e in B && f in B[e] ensures e + f in C && C[e + f] == B[e][f] {
      assert (e, f) in done;
    }
  }

  // ---------------------------------------------------------------------------------
  // The round trip

  /** The recursive form distributes without collision back to the polynomial itself. */
  lemma DistributeRecursive(A: SPoly, i: nat, B: RPoly)
    requires IsRecursive(A, i, B)
    ensures !HasCollision(B) && IsDistribution(B, A)
  {
    UniformHeadsNoCollision(B, i);
    forall g | g in A ensures exists e, f :: e in B && f in B[e] && g == e + f {
      assert g == g[..i] + g[i..];
    }
  }

  /**
    Conversely, a recursive polynomial whose heads all have length i, with nonzero
    coefficient polynomials, is the recursive form of its distribution.
  */
  lemma RecursiveDistribute(B: RPoly, i: nat, C: SPoly)
    requires forall f :: f in B ==> |f| == i && B[f] != map[]
    requires IsDistribution(B, C)
    ensures IsRecursive(C, i, B)
  {
    forall g | g in C ensures |g| >= i && g[..i] in B && g[i..] in B[g[..i]] {
      var e, f :| e in B && f in B[e] && g == e + f;
      assert g[..i] == e && g[i..] == f;
    }
  }

  /** Heads of equal length never collide, so distribute cannot fail on them. */
  lemma UniformHeadsNoCollision(B: RPoly, i: nat)
    requires forall f :: f in B ==> |f| == i
    ensures !HasCollision(B)
  {
    forall e1, f1, e2, f2 | e1 in B && f1 in B[e1] && e2 in B && f2 in B[e2] && e1 + f1 == e2 + f2
      ensures e1 == e2 && f1 == f2
    {
      assert e1 == (e1 + f1)[..i] && e2 == (e2 + f2)[..i];
      assert f1 == (e1 + f1)[i..] && f2 == (e2 + f2)[i..];
    }
  }

  /** The recursive form is unique. */
  lemma RecursiveUnique(A: SPoly, i: nat, B1: RPoly, B2: RPoly)
    requires IsRecursive(A, i, B1) && IsRecursive(A, i, B2)
    ensures B1 == B2
  {
    forall f | f in B1 ensures f in B2 && B1[f] == B2[f] {
      RecursiveUniqueAt(A, i, B1, B2, f);
    }
    forall f | f in B2 ensures f in B1 {
      RecursiveUniqueAt(A, i, B2, B1, f);
    }
  }

  lemma RecursiveUniqueAt(A: SPoly, i: nat, B1: RPoly, B2: RPoly, f: Exp)
    requires IsRecursive(A, i, B1) && IsRecursive(A, i, B2) && f in B1
    ensures f in B2 && B1[f] == B2[f]
  {
    var g := SomeExponent(B1[f]);
    RecursiveTerm(A, i, B2, f, g);
    SameCoefficients(A, i, B1, B2, f);
    SameCoefficients(A, i, B2, B1, f);
  }

  /** The coefficient polynomials two recursive forms keep under f agree term by term. */
  lemma SameCoefficients(A: SPoly, i: nat, B1: RPoly, B2: RPoly, f: Exp)
    requires IsRecursive(A, i, B1) && IsRecursive(A, i, B2) && f in B1 && f in B2
    ensures forall g :: g in B1[f] ==> g in B2[f] && B1[f][g] == B2[f][g]
  {
    forall g | g in B1[f] ensures g in B2[f] && B1[f][g] == B2[f][g] {
      RecursiveTerm(A, i, B2, f, g);
    }
  }

  lemma SomeExponent(p: SPoly) returns (g: Exp)
    requires p != map[]
    ensures g in p
  {
    g :| g in p.Keys;
  }

  /** Where the recursive form keeps the term of A at f + g. */
  lemma RecursiveTerm(A: SPoly, i: nat, B: RPoly, f: Exp, g: Exp)
    requires IsRecursive(A, i, B) && f + g in A && |f| == i
    ensures f in B && g in B[f] && B[f][g] == A[f + g]
  {
    assert (f + g)[..i] == f && (f + g)[i..] == g;
  }

  // ---------------------------------------------------------------------------------
  // coeffMaxDegree

  /** ExpVector.maxDeg: the largest exponent (0 for the empty vector). */
  method MaxDeg(e: Exp) returns (d: nat)
    ensures forall k :: 0 <= k < |e| ==> e[k] <= d
    ensures d == 0 || exists k :: 0 <= k < |e| && e[k] == d
  {
    d := 0;
    var k := 0;
    while k < |e|
      invariant 0 <= k <= |e|
      invariant forall j :: 0 <= j < k ==> e[j] <= d
      invariant d == 0 || exists j :: 0 <= j < k && e[j] == d
    {
      if e[k] > d {
        d := e[k];
      }
      k := k + 1;
    }
  }

  /** GenPolynomial.degree: the largest exponent of any variable in any term (0 for zero). */
  method Degree(a: SPoly) returns (d: nat)
    ensures forall g, k :: g in a && 0 <= k < |g| ==> g[k] <= d
    ensures d == 0 || exists g, k :: g in a && 0 <= k < |g| && g[k] == d
  {
    d := 0;
    var todo := a.Keys;
    while todo != {}
      invariant todo <= a.Keys
      invariant forall g, k :: g in a && g !in todo && 0 <= k < |g| ==> g[k] <= d
      invariant d == 0 || exists g, k :: g in a && 0 <= k < |g| && g[k] == d
      decreases |todo|
    {
      var g :| g in todo;
      var x := MaxDeg(g);
      if x > d {
        d := x;
      }
      todo := todo - {g};
    }
  }

  /**
    PolyUtil.coeffMaxDegree: 0 for the zero polynomial, else the largest degree of a
    coefficient polynomial: it bounds every exponent in every coefficient and is attained.
  */
  method CoeffMaxDegree(A: RPoly) returns (deg: nat)
    ensures forall f, g, k :: f in A && g in A[f] && 0 <= k < |g| ==> g[k] <= deg
    ensures deg == 0 || exists f, g, k :: f in A && g in A[f] && 0 <= k < |g| && g[k] == deg
  {
    if A == map[] {
      return 0;
    }
    deg := 0;
    var todo := A.Keys;
    while todo != {}
      invariant todo <= A.Keys
      invariant forall f, g, k :: f in A && f !in todo && g in A[f] && 0 <= k < |g| ==> g[k] <= deg
      invariant deg == 0 || exists f, g, k :: f in A && g in A[f] && 0 <= k < |g| && g[k] == deg
      decreases |todo|
    {
      var f :| f in todo;
      var d := Degree(A[f]);
      if d > deg {
        deg := d;
      }
      todo := todo - {f};
    }
  }
}
