/**
  The Fermat stage of PrimeInteger's factorisation: the residue lists modulo a
  single modulus (SAC2's FRLSM) and the search for n = x^2 - y^2 downwards through
  the x whose residue lies in the list (ILPDS).
*/
module FermatSearch {
  import opened Numbers
  import opened Outcomes
  import opened PrimeSieve
  import opened PrimeSearch

  // ---------------------------------------------------------------- square roots

  function IsqrtFrom(n: int, r: nat): (s: nat)
    requires r * r <= n
    ensures s * s <= n < (s + 1) * (s + 1)
    decreases n - r
  {
    if (r + 1) * (r + 1) > n then r
    else
      MulLe(r + 1, 1, r + 1);
      IsqrtFrom(n, r + 1)
  }

  /** Roots.sqrtInt: the integer square root. */
  function Isqrt(n: nat): (r: nat)
    ensures r * r <= n < (r + 1) * (r + 1)
  {
    IsqrtFrom(n, 0)
  }

  /** The integer square root is the only y with y^2 <= n < (y+1)^2. */
  lemma IsqrtUnique(n: nat, y: nat)
    requires y * y <= n < (y + 1) * (y + 1)
    ensures Isqrt(n) == y
  {
    var r := Isqrt(n);
    if r < y {
      MulLe(r + 1, r + 1, y);
      MulLe(y, r + 1, y);
    } else if r > y {
      MulLe(y + 1, y + 1, r);
      MulLe(r, y + 1, r);
    }
  }

  /** x^2 - n is a perfect square: the test TL == 0 of the source. */
  predicate FermatPoint(n: int, x: int)
  {
    x * x - n >= 0 && Isqrt(x * x - n) * Isqrt(x * x - n) == x * x - n
  }

  /** Fermat's identity: n = x^2 - y^2 = (x - y)(x + y), so x - y divides n. */
  lemma FermatDivisor(n: int, x: int, y: int)
    requires n >= 1 && x >= 0 && y >= 0 && x * x - n == y * y
    ensures 1 <= x - y && Divides(x - y, n)
  {
    assert n == (x - y) * (x + y);
    assert x > y by {
      if x <= y {
        MulLe(x, x, y);
        MulLe(y, x, y);
      }
    }
    MultipleDivides(x - y, x + y);
  }

  /** Every perfect square is found by the test. */
  lemma FermatPointSquare(n: int, x: int, y: nat)
    requires x * x - n == y * y
    ensures FermatPoint(n, x) && Isqrt(x * x - n) == y
  {
    assert y * y <= y * y < (y + 1) * (y + 1);
    IsqrtUnique(y * y, y);
  }

  // ---------------------------------------------------------------- the search range

  /** XL1: the least x the search tries, the ceiling of (b + n/b)/2. */
  function FermatLow(n: int, b: int): int
    requires b >= 1
  {
    var q := n / b;
    if n % b != 0 || (b + q) % 2 != 0 then (b + q) / 2 + 1 else (b + q) / 2
  }

  /** XL2: the x the search starts below, (a + n/a)/2. */
  function FermatHigh(n: int, a: int): int
    requires a >= 1
  {
    (a + n / a) / 2
  }

  lemma SquareNonneg(z: int)
    ensures z * z >= 0
  {
    if z < 0 {
      MulLe(-z, z, 0);
    }
  }

  lemma ExpandEven(b: int, q: int)
    ensures (b + q) * (b + q) == (b - q) * (b - q) + 4 * (b * q)
  {
  }

  lemma ExpandOdd(b: int, q: int, r: int)
    ensures (b + q + 1) * (b + q + 1) == (b - q - 1) * (b - q - 1) + 4 + 4 * (b - 1 - r) + 4 * (b * q + r)
  {
  }

  lemma Double(x: int)
    ensures (2 * x) * (2 * x) == 4 * (x * x)
  {
  }

  /** (b + q)/2 squared reaches b q. */
  lemma EvenBound(b: int, q: int, x: int)
    requires 2 * x == b + q
    ensures x * x >= b * q
  {
    Double(x);
    ExpandEven(b, q);
    SquareNonneg(b - q);
  }

  /** A half above (b + q)/2 squared passes b q + r for every r < b. */
  lemma OddBound(b: int, q: int, r: int, x: int)
    requires 0 <= r < b && b + q >= 0 && 2 * x >= b + q + 1
    ensures x * x >= b * q + r
  {
    var e := b + q + 1;
    Double(x);
    ExpandOdd(b, q, r);
    SquareNonneg(b - q - 1);
    MulLe(2 * x, e, 2 * x);
    MulLe(e, e, 2 * x);
  }

  /** The least x of the range is positive and its square reaches n, so x^2 - n never goes negative. */
  lemma FermatLowSquare(n: int, b: int)
    requires n >= 1 && b >= 1
    ensures FermatLow(n, b) >= 1 && FermatLow(n, b) * FermatLow(n, b) >= n
  {
    var q, r := n / b, n % b;
    assert n == b * q + r && 0 <= r < b && q >= 0;
    var h := (b + q) / 2;
    assert b + q == 2 * h + (b + q) % 2;
    if r == 0 && (b + q) % 2 == 0 {
      EvenBound(b, q, h);
    } else {
      OddBound(b, q, r, h + 1);
    }
  }

  // ---------------------------------------------------------------- residues

  predicate StrictlyDecreasing(s: seq<int>)
  {
    forall i, j :: 0 <= i < j < |s| ==> s[i] > s[j]
  }

  /** A stretch [lo, hi) of residues holding no entry of D has no x above M w whose residue is in D. */
  lemma NoResidueIn(D: seq<int>, M: int, w: int, lo: int, hi: int, x: int)
    requires M >= 1 && 0 <= lo && hi <= M && M * w + lo <= x < M * w + hi
    requires forall t :: 0 <= t < |D| ==> !(lo <= D[t] < hi)
    ensures x % M !in D
  {
    DivModUnique(x, M, w, x - M * w);
  }

  /** No x in (lo, hi] whose residue lies in D makes x^2 - n a square. */
  ghost predicate NoFermatAbove(n: int, lo: int, hi: int, D: seq<int>, M: int)
    requires M >= 1
  {
    forall y :: lo < y <= hi && y % M in D ==> !FermatPoint(n, y)
  }

  /**
    The outcome of the search from hi down to lo: p = x - y for the largest x in
    [lo, hi] with residue in D and x^2 - n = y^2, or 1 when there is none.
  */
  ghost predicate FirstFermat(n: int, lo: int, hi: int, D: seq<int>, M: int, p: int)
    requires M >= 1
  {
    (exists x :: lo <= x <= hi && x % M in D && FermatPoint(n, x) && NoFermatAbove(n, x, hi, D, M)
                 && p == x - Isqrt(x * x - n))
    || (p == 1 && NoFermatAbove(n, lo - 1, hi, D, M))
  }

  /**
    largePrimeDivisorSearch(n, a, b): runs x down from (a + n/a)/2 to the ceiling
    of (b + n/b)/2 through the x whose residue modulo ML lies in L, and returns
    x - y for the first x with x^2 - n = y^2.  L and ML are what
    residueListFermat(n) returns, L in the decreasing order the source sorts it
    into; with no residues the source returns n.
  */
  method LargePrimeDivisorSearch(n: int, a: int, b: int, L: seq<int>, ML: int) returns (r: Result<int>)
    requires n >= 1 && a >= 1 && b >= 1 && ML >= 1
    requires StrictlyDecreasing(L) && forall t :: 0 <= t < |L| ==> 0 <= L[t] < ML
    ensures r.Err? <==> n > Beta
    ensures r.Ok? ==> r.value >= 1 && n % r.value == 0
    ensures r.Ok? && |L| == 0 ==> r.value == n
    ensures r.Ok? && |L| > 0 ==> FirstFermat(n, FermatLow(n, b), FermatHigh(n, a), L, ML, r.value)
  {
    if n > Beta {
      return Err("largePrimeDivisorSearch only for longs less than BETA");
    }
    var QL := n / b;
    var RL := n % b;
    var XL1 := b + QL;
    var SL := XL1 % 2;
    XL1 := XL1 / 2;
    if RL != 0 || SL != 0 {
      XL1 := XL1 + 1;
    }
    QL := n / a;
    var XL2 := a + QL;
    XL2 := XL2 / 2;
    if |L| == 0 {
      return Ok(n);
    }
    assert XL1 == FermatLow(n, b) && XL2 == FermatHigh(n, a);
    FermatLowSquare(n, b);
    var i, XL := FermatStart(XL2, L, ML);
    var PL := FermatDescent(n, XL1, XL2, L, ML, i, XL);
    return Ok(PL);
  }

  /**
    The first x of the search: the largest x <= XL2 whose residue lies in L,
    found by scanning the decreasing list for the first entry not above XL2 mod ML
    and wrapping round to the previous block when there is none.
  */
  method FermatStart(XL2: int, L: seq<int>, ML: int) returns (i: int, XL: int)
    requires ML >= 1 && |L| > 0
    requires StrictlyDecreasing(L) && forall t :: 0 <= t < |L| ==> 0 <= L[t] < ML
    ensures 1 <= i <= |L| && XL % ML == L[i - 1] && XL <= XL2
    ensures forall y :: XL < y <= XL2 ==> y % ML !in L
  {
    var r := XL2 % ML;
    i := 0;
    while i < |L| && r < L[i]
      invariant 0 <= i <= |L| && forall t :: 0 <= t < i ==> r < L[t]
    {
      i := i + 1;
    }
    ghost var w := XL2 / ML;
    assert XL2 == ML * w + r;
    var SL;
    if i == |L| {
      i := 0;
      SL := ML;
      forall y | ML * (w - 1) + L[0] < y <= XL2
        ensures y % ML !in L
      {
        if y < ML * w {
          NoResidueIn(L, ML, w - 1, L[0] + 1, ML, y);
        } else {
          NoResidueIn(L, ML, w, 0, r + 1, y);
        }
      }
      w := w - 1;
    } else {
      SL := 0;
      forall y | ML * w + L[i] < y <= XL2
        ensures y % ML !in L
      {
        NoResidueIn(L, ML, w, L[i] + 1, r + 1, y);
      }
    }
    var RL1 := L[i];
    i := i + 1;
    SL := (SL + r) - RL1;
    XL := XL2 - SL;
    DivModUnique(XL, ML, w, RL1);
  }

  /** Within the list: from the entry at i-1 down to the entry at i, no residue of L is skipped. */
  lemma StepWithin(L: seq<int>, ML: int, XL: int, i: int)
    requires ML >= 1 && StrictlyDecreasing(L) && forall t :: 0 <= t < |L| ==> 0 <= L[t] < ML
    requires 1 <= i < |L| && XL % ML == L[i - 1]
    ensures L[i - 1] - L[i] >= 1 && (XL - (L[i - 1] - L[i])) % ML == L[i]
    ensures forall y :: XL - (L[i - 1] - L[i]) < y < XL ==> y % ML !in L
  {
    var w := XL / ML;
    assert XL == ML * w + L[i - 1];
    DivModUnique(XL - (L[i - 1] - L[i]), ML, w, L[i]);
    forall y | XL - (L[i - 1] - L[i]) < y < XL
      ensures y % ML !in L
    {
      NoResidueIn(L, ML, w, L[i] + 1, L[i - 1], y);
    }
  }

  /** Past the end of the list: from the last entry round to the first one of the block below. */
  lemma StepWrap(L: seq<int>, ML: int, XL: int)
    requires ML >= 1 && StrictlyDecreasing(L) && forall t :: 0 <= t < |L| ==> 0 <= L[t] < ML
    requires |L| >= 1 && XL % ML == L[|L| - 1]
    ensures ML + L[|L| - 1] - L[0] >= 1 && (XL - (ML + L[|L| - 1] - L[0])) % ML == L[0]
    ensures forall y :: XL - (ML + L[|L| - 1] - L[0]) < y < XL ==> y % ML !in L
  {
    var w := XL / ML;
    var last := L[|L| - 1];
    assert XL == ML * w + last;
    assert XL - (ML + last - L[0]) == ML * (w - 1) + L[0];
    DivModUnique(XL - (ML + last - L[0]), ML, w - 1, L[0]);
    forall y | XL - (ML + last - L[0]) < y < XL
      ensures y % ML !in L
    {
      if y < ML * w {
        NoResidueIn(L, ML, w - 1, L[0] + 1, ML, y);
      } else {
        NoResidueIn(L, ML, w, 0, last, y);
      }
    }
  }

  /** A failed x and a gap below it extend the stretch that holds no Fermat point. */
  lemma DescentStep(n: int, L: seq<int>, ML: int, XL2: int, XL: int, XL': int)
    requires ML >= 1 && NoFermatAbove(n, XL, XL2, L, ML) && !FermatPoint(n, XL)
    requires forall y :: XL' < y < XL ==> y % ML !in L
    ensures NoFermatAbove(n, XL', XL2, L, ML)
  {
  }

  /**
    The descent: from XL down to XL1 through the x with residue in L, stepping
    from each entry of L to the next and from the last back to the first.
  */
  method FermatDescent(n: int, XL1: int, XL2: int, L: seq<int>, ML: int, i0: int, XL0: int)
    returns (PL: int)
    requires n >= 1 && ML >= 1 && XL1 >= 1 && XL1 * XL1 >= n
    requires StrictlyDecreasing(L) && forall t :: 0 <= t < |L| ==> 0 <= L[t] < ML
    requires 1 <= i0 <= |L| && XL0 % ML == L[i0 - 1] && XL0 <= XL2
    requires forall y :: XL0 < y <= XL2 ==> y % ML !in L
    ensures PL >= 1 && n % PL == 0
    ensures FirstFermat(n, XL1, XL2, L, ML, PL)
  {
    var i, XL, RL1 := i0, XL0, L[i0 - 1];
    while XL >= XL1
      invariant 1 <= i <= |L| && RL1 == L[i - 1] && XL % ML == RL1 && XL <= XL2
      invariant NoFermatAbove(n, XL, XL2, L, ML)
      decreases XL - XL1
    {
      MulLe(XL1, XL1, XL);
      MulLe(XL, XL1, XL);
      var J2Y := XL * XL;
      var YLP := J2Y - n;
      var YL := Isqrt(YLP);
      var TL := YLP - YL * YL;
      if TL == 0 {
        PL := XL - YL;
        FermatDivisor(n, XL, YL);
        return;
      }
      var RL2, SL;
      if i < |L| {
        StepWithin(L, ML, XL, i);
        RL2 := L[i];
        i := i + 1;
        SL := RL1 - RL2;
      } else {
        StepWrap(L, ML, XL);
        i := 0;
        RL2 := L[i];
        i := i + 1;
        var J1Y := ML + RL1;
        SL := J1Y - RL2;
      }
      DescentStep(n, L, ML, XL2, XL, XL - SL);
      RL1 := RL2;
      XL := XL - SL;
    }
    PL := 1;
  }

  // ---------------------------------------------------------------- residue lists

  function Sq(t: int, m: int): int
    requires m >= 1
  {
    (t * t) % m
  }

  /** v is a square in Z(m). */
  ghost predicate IsSquareMod(v: int, m: int)
    requires m >= 1
  {
    exists t :: 0 <= t < m && Sq(t, m) == v
  }

  /** The list S of the source: the squares of 0, 1, ..., m/2 modulo m. */
  ghost predicate SquareTable(S: seq<int>, m: int)
    requires m >= 1
  {
    |S| == m / 2 + 1 && forall t :: 0 <= t < |S| ==> S[t] == Sq(t, m)
  }

  /** The test the source makes at t: S[t] - a is again in S. */
  predicate Accepts(S: seq<int>, m: int, am: int, t: int)
    requires m >= 1 && 0 <= t < |S|
  {
    (S[t] - am) % m in S
  }

  /** x is in the list once the loop has passed below i: through x itself or through its negative. */
  predicate Listed(S: seq<int>, m: int, am: int, i: int, x: int)
    requires m >= 1
  {
    var nx := (-x) % m;
    (0 <= x && i < x < |S| && Accepts(S, m, am, x)) || (i < nx < |S| && Accepts(S, m, am, nx))
  }

  /** TreeSet.add on the ascending list of the set's elements. */
  function Insert(L: seq<int>, x: int): (L': seq<int>)
    requires StrictlyIncreasing(L)
    ensures StrictlyIncreasing(L') && forall y :: y in L' <==> y in L || y == x
  {
    if |L| == 0 then [x]
    else if x < L[0] then [x] + L
    else if x == L[0] then L
    else
      var R := Insert(L[1..], x);
      assert forall y :: y in L[1..] ==> L[0] < y;
      assert forall j :: 0 <= j < |R| ==> R[j] in R;
      [L[0]] + R
  }

  lemma NegMod(m: int, x: int)
    requires 0 <= x < m
    ensures (-x) % m == if x == 0 then 0 else m - x
  {
    if x > 0 {
      DivModUnique(-x, m, -1, m - x);
    }
  }

  /** The square of a residue is the residue of the square. */
  lemma SquareOfResidue(m: int, x: int)
    requires m >= 1
    ensures Divides(m, x * x - (x % m) * (x % m))
    ensures ((x % m) * (x % m)) % m == (x * x) % m
  {
    var q, r := x / m, x % m;
    assert x * x - r * r == m * (m * q * q + 2 * q * r);
    MultipleDivides(m, m * q * q + 2 * q * r);
    CongruentMod(m, x * x, r * r);
  }

  /** -x and x have the same square modulo m. */
  lemma NegSquare(m: int, x: int, a: int)
    requires 0 <= x < m
    ensures ((-x) % m * ((-x) % m) - a) % m == (x * x - a) % m
  {
    NegMod(m, x);
    if x > 0 {
      assert (m - x) * (m - x) - a == m * (m - 2 * x) + (x * x - a);
      ModAddMultiple(m, m - 2 * x, x * x - a);
    }
  }

  /** ModLong's difference of the reduced square and the reduced a. */
  lemma ReducedDifference(m: int, t: int, a: int)
    requires m >= 1
    ensures ((t * t) % m - a % m) % m == (t * t - a) % m
  {
    var k1, k2 := (t * t) / m, a / m;
    assert (t * t) % m - a % m == m * (k2 - k1) + (t * t - a);
    ModAddMultiple(m, k2 - k1, t * t - a);
  }

  /** The table holds exactly the squares of Z(m). */
  lemma SquareTableMeaning(S: seq<int>, m: int, v: int)
    requires m >= 1 && SquareTable(S, m)
    ensures v in S <==> IsSquareMod(v, m)
  {
    if v in S {
      var k :| 0 <= k < |S| && S[k] == v;
      assert Sq(k, m) == v;
    }
    if IsSquareMod(v, m) {
      var t :| 0 <= t < m && Sq(t, m) == v;
      if t < |S| {
        assert S[t] == v;
      } else {
        NegMod(m, t);
        NegSquare(m, t, 0);
        assert S[m - t] == Sq(m - t, m);
      }
    }
  }

  /** The source's test at t says that t^2 - a is a square in Z(m). */
  lemma AcceptsMeaning(S: seq<int>, m: int, a: int, t: int)
    requires m >= 1 && SquareTable(S, m) && 0 <= t < |S|
    ensures Accepts(S, m, a % m, t) <==> IsSquareMod((t * t - a) % m, m)
  {
    ReducedDifference(m, t, a);
    SquareTableMeaning(S, m, (t * t - a) % m);
  }

  /** After the loop, x is listed exactly when x^2 - a is a square in Z(m). */
  lemma ListedMeaning(S: seq<int>, m: int, a: int, x: int)
    requires m >= 1 && SquareTable(S, m) && 0 <= x < m
    ensures Listed(S, m, a % m, -1, x) <==> IsSquareMod((x * x - a) % m, m)
  {
    var nx := (-x) % m;
    NegMod(m, x);
    NegSquare(m, x, a);
    if x < |S| {
      AcceptsMeaning(S, m, a, x);
    }
    if nx < |S| {
      AcceptsMeaning(S, m, a, nx);
    }
  }

  /** The list S of residueListFermatSingle: the squares of 0, 1, ..., m/2 in Z(m). */
  method SquaresTable(m: int) returns (S: seq<int>)
    requires m >= 1
    ensures SquareTable(S, m)
  {
    var MLP := m / 2;
    S := [];
    for i := 0 to MLP + 1
      invariant |S| == i && forall t :: 0 <= t < i ==> S[t] == Sq(t, m)
    {
      var SL := i % m;
      SL := (SL * SL) % m;
      SquareOfResidue(m, i);
      S := S + [SL];
    }
  }

  /** One step of the loop lists t = i and its negative when the test at i succeeds. */
  lemma ListedStep(S: seq<int>, m: int, am: int, i: int, x: int)
    requires m >= 1 && 0 <= i < |S| <= m && 0 <= x < m
    ensures Listed(S, m, am, i - 1, x)
            <==> Listed(S, m, am, i, x) || (Accepts(S, m, am, i) && (x == i || x == (-i) % m))
  {
    NegMod(m, x);
    NegMod(m, i);
  }

  /**
    residueListFermatSingle(m, a): the ascending list of the b in Z(m) for which
    b^2 - a is a square in Z(m).  The source tests b = m/2, ..., 1, 0 against the
    table of squares and adds b and -b.
  */
  method ResidueListFermatSingle(m: int, a: int) returns (Lp: seq<int>)
    requires m >= 1
    ensures StrictlyIncreasing(Lp)
    ensures forall x :: x in Lp <==> 0 <= x < m && IsSquareMod((x * x - a) % m, m)
  {
    var am := a % m;
    var MLP := m / 2;
    var S := SquaresTable(m);
    var L: seq<int> := [];
    var i := MLP;
    while i >= 0
      invariant -1 <= i <= MLP && StrictlyIncreasing(L)
      invariant forall x :: x in L <==> 0 <= x < m && Listed(S, m, am, i, x)
      decreases i
    {
      var SL := S[i];
      var SLP := (SL - am) % m;
      var hit := SLP in S;
      ghost var L0 := L;
      assert hit == Accepts(S, m, am, i);
      DivModUnique(i, m, 0, i);
      if hit {
        SLP := i % m;
        L := Insert(L, SLP);
        var SLPP := (-SLP) % m;
        if SLPP != SLP {
          L := Insert(L, SLPP);
        }
      }
      forall x
        ensures x in L <==> 0 <= x < m && Listed(S, m, am, i - 1, x)
      {
        assert x in L <==> x in L0 || (hit && (x == i || x == (-i) % m));
        if 0 <= x < m {
          ListedStep(S, m, am, i, x);
        }
      }
      i := i - 1;
    }
    forall x | 0 <= x < m
      ensures Listed(S, m, am, -1, x) <==> IsSquareMod((x * x - a) % m, m)
    {
      ListedMeaning(S, m, a, x);
    }
    Lp := L;
  }

  /**
    Every x with x^2 - n a square has its residue in the list for a = n mod m:
    the residue lists leave out no x the search needs.
  */
  lemma FermatResidue(m: int, n: int, a: int, x: int, y: int)
    requires m >= 1 && a % m == n % m && x * x - n == y * y
    ensures 0 <= x % m < m && IsSquareMod(((x % m) * (x % m) - a) % m, m)
  {
    var u := (x % m) * (x % m) - a;
    SquareOfResidue(m, x);
    SquareOfResidue(m, y);
    ModCongruent(m, a);
    ModCongruent(m, n);
    DividesSum(m, a - a % m, n - n % m);
    DividesSum(m, x * x - (x % m) * (x % m), a - n);
    assert y * y - u == (x * x - (x % m) * (x % m)) + (a - n);
    CongruentMod(m, y * y, u);
    assert Sq(y % m, m) == u % m;
  }
}
