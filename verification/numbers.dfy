/**
  Integer number theory shared by the polynomial and prime modules: divisibility,
  powers, Euclid's gcd with its Bezout coefficients, primes, modular inverses and the
  residue conversions that ModInteger and BigInteger perform.
*/
module Numbers {

  /** d divides x; only 0 is a multiple of 0. */
  predicate Divides(d: int, x: int)
  {
    if d == 0 then x == 0 else x % d == 0
  }

  function Pow(b: int, e: nat): int
  {
    if e == 0 then 1 else b * Pow(b, e - 1)
  }

  lemma {:induction false} PowPositive(b: int, e: nat)
    requires b > 0
    ensures Pow(b, e) > 0
  {
    if e > 0 { PowPositive(b, e - 1); }
  }

  lemma {:induction false} PowAdd(b: int, e: nat, f: nat)
    ensures Pow(b, e + f) == Pow(b, e) * Pow(b, f)
  {
    if e > 0 {
      PowAdd(b, e - 1, f);
      assert Pow(b, e + f) == b * Pow(b, e - 1 + f);
    }
  }

  lemma MulAwayFromZero(d: int, k: int)
    requires d > 0
    ensures k >= 1 ==> d * k >= d
    ensures k <= -1 ==> d * k <= -d
  {
  }

  /** Division with remainder is unique: a representation z == d*q + r with 0 <= r < d is the one. */
  lemma DivModUnique(z: int, d: int, q: int, r: int)
    requires d > 0 && 0 <= r < d && z == d * q + r
    ensures z / d == q && z % d == r
  {
    var q', r' := z / d, z % d;
    assert z == d * q' + r';
    assert d * (q - q') == r' - r;
    MulAwayFromZero(d, q - q');
  }

  /** A multiple of d, plus anything, leaves the same remainder as that thing. */
  lemma ModAddMultiple(d: int, k: int, x: int)
    requires d > 0
    ensures (d * k + x) % d == x % d
  {
    var q, r := x / d, x % d;
    assert x == d * q + r;
    assert d * k + x == d * (k + q) + r;
    DivModUnique(d * k + x, d, k + q, r);
  }

  lemma MultipleDivides(d: int, k: int)
    ensures Divides(d, d * k)
  {
    if d != 0 {
      if d > 0 {
        ModAddMultiple(d, k, 0);
      } else {
        ModAddMultiple(-d, -k, 0);
      }
    }
  }

  /** Divides(d, x) gives its quotient. */
  lemma DividesQuotient(d: int, x: int) returns (k: int)
    requires Divides(d, x)
    ensures x == d * k
  {
    if d == 0 { k := 0; } else { k := x / d; }
  }

  lemma DividesLinear(d: int, x: int, y: int, a: int, b: int)
    requires Divides(d, x) && Divides(d, y)
    ensures Divides(d, a * x + b * y)
  {
    var k := DividesQuotient(d, x);
    var l := DividesQuotient(d, y);
    assert a * x + b * y == d * (a * k + b * l);
    MultipleDivides(d, a * k + b * l);
  }

  lemma DividesSum(d: int, x: int, y: int)
    requires Divides(d, x) && Divides(d, y)
    ensures Divides(d, x + y) && Divides(d, x - y)
  {
    DividesLinear(d, x, y, 1, 1);
    DividesLinear(d, x, y, 1, -1);
  }

  lemma DividesTimes(d: int, x: int, a: int)
    requires Divides(d, x)
    ensures Divides(d, a * x) && Divides(d * a, x * a)
  {
    DividesLinear(d, x, 0, a, 0);
    var k := DividesQuotient(d, x);
    assert x * a == (d * a) * k;
    MultipleDivides(d * a, k);
  }

  lemma DividesTrans(c: int, d: int, x: int)
    requires Divides(c, d) && Divides(d, x)
    ensures Divides(c, x)
  {
    var k := DividesQuotient(c, d);
    var l := DividesQuotient(d, x);
    assert x == c * (k * l);
    MultipleDivides(c, k * l);
  }

  /** A nonzero multiple of d is at least |d|. */
  lemma DividesBound(d: int, x: int)
    requires d > 0 && x > 0 && Divides(d, x)
    ensures d <= x
  {
    var k := DividesQuotient(d, x);
    assert k >= 1;
  }

  /** An integer is congruent to its remainder. */
  lemma ModCongruent(m: int, x: int)
    requires m > 0
    ensures Divides(m, x - x % m)
  {
    assert x - x % m == m * (x / m);
    MultipleDivides(m, x / m);
  }

  /** Congruent integers leave the same remainder. */
  lemma CongruentMod(m: int, x: int, y: int)
    requires m > 0 && Divides(m, x - y)
    ensures x % m == y % m
  {
    var k := DividesQuotient(m, x - y);
    assert x == m * k + y;
    ModAddMultiple(m, k, y);
  }

  /** Euclid's algorithm, as BigInteger.gcd computes it on magnitudes. */
  function Gcd(a: nat, b: nat): nat
    decreases b
  {
    if b == 0 then a else Gcd(b, a % b)
  }

  lemma {:induction false} GcdDivides(a: nat, b: nat)
    ensures Divides(Gcd(a, b), a) && Divides(Gcd(a, b), b)
    decreases b
  {
    if b != 0 {
      GcdDivides(b, a % b);
      var g := Gcd(a, b);
      assert a == (a / b) * b + a % b;
      DividesLinear(g, b, a % b, a / b, 1);
    }
  }

  /** Every common divisor divides the gcd: it is the greatest one. */
  lemma {:induction false} GcdGreatest(a: nat, b: nat, d: int)
    requires Divides(d, a) && Divides(d, b)
    ensures Divides(d, Gcd(a, b))
    decreases b
  {
    if b != 0 {
      var q, r := a / b, a % b;
      assert a == b * q + r;
      DividesLinear(d, a, b, 1, -q);
      assert 1 * a + (-q) * b == r;
      GcdGreatest(b, r, d);
    }
  }

  lemma GcdPositive(a: nat, b: nat)
    requires a > 0 || b > 0
    ensures Gcd(a, b) > 0
  {
    GcdDivides(a, b);
  }

  /** Two nonnegative integers that divide each other are equal. */
  lemma DividesAntisymmetric(x: nat, y: nat)
    requires Divides(x, y) && Divides(y, x)
    ensures x == y
  {
    if x > 0 && y > 0 {
      DividesBound(x, y);
      DividesBound(y, x);
    }
  }

  lemma GcdCommutes(a: nat, b: nat)
    ensures Gcd(a, b) == Gcd(b, a)
  {
    GcdDivides(a, b);
    GcdDivides(b, a);
    GcdGreatest(b, a, Gcd(a, b));
    GcdGreatest(a, b, Gcd(b, a));
    DividesAntisymmetric(Gcd(a, b), Gcd(b, a));
  }

  /** A common factor comes out of the gcd. */
  lemma {:induction false} GcdScales(k: nat, a: nat, b: nat)
    ensures Gcd(k * a, k * b) == k * Gcd(a, b)
    decreases b
  {
    if b == 0 {
      assert k * b == 0;
    } else if k == 0 {
      assert k * a == 0 && k * b == 0;
    } else {
      var q, r := a / b, a % b;
      assert a == b * q + r;
      assert k * a == (k * b) * q + k * r;
      assert k * r < k * b;
      DivModUnique(k * a, k * b, q, k * r);
      GcdScales(k, b, r);
    }
  }

  /** Extended Euclid: Bezout coefficients (s, t) with s*a + t*b == gcd(a, b). */
  function ExtGcd(a: nat, b: nat): (st: (int, int))
    ensures st.0 * a + st.1 * b == Gcd(a, b)
    decreases b
  {
    if b == 0 then (1, 0)
    else
      var st' := ExtGcd(b, a % b);
      var q := a / b;
      assert a % b == a - q * b;
      assert st'.1 * a + (st'.0 - q * st'.1) * b == st'.0 * b + st'.1 * (a % b);
      (st'.1, st'.0 - q * st'.1)
  }

  predicate IsPrime(n: int)
  {
    n >= 2 && forall d :: 2 <= d < n ==> n % d != 0
  }

  /** The only positive divisors of a prime are 1 and itself. */
  lemma PrimeDivisors(p: int, d: int)
    requires IsPrime(p) && d > 0 && Divides(d, p)
    ensures d == 1 || d == p
  {
    DividesBound(d, p);
  }

  /** The inverse of a modulo a prime p: every nonzero residue is a unit. */
  function InverseMod(a: int, p: int): (r: int)
    requires IsPrime(p) && a % p != 0
    ensures 0 <= r < p
    ensures (a * r) % p == 1
  {
    var g := Gcd(a % p, p);
    GcdDivides(a % p, p);
    GcdPositive(a % p, p);
    DividesBound(g, a % p);
    PrimeDivisors(p, g);
    UnitInverse(a, p)
  }

  /**
    The inverse of a unit a modulo m (ModInteger.inverse), from the Bezout relation of
    a mod m and m.
  */
  function UnitInverse(a: int, m: int): (r: int)
    requires m > 1 && Gcd(a % m, m) == 1
    ensures 0 <= r < m
    ensures (a * r) % m == 1
  {
    var st := ExtGcd(a % m, m);
    assert st.0 * (a % m) + st.1 * m == 1;
    InverseModStep(a, m, st.0, st.1);
    st.0 % m
  }

  lemma InverseModStep(a: int, p: int, s: int, t: int)
    requires p > 1 && s * (a % p) + t * p == 1
    ensures (a * (s % p)) % p == 1
  {
    var ar, sr := a % p, s % p;
    var qa, qs := a / p, s / p;
    assert a == p * qa + ar;
    assert sr == s - p * qs;
    assert a * sr == p * (qa * sr) + ar * sr;
    assert ar * sr == ar * s - p * (ar * qs);
    assert ar * s == 1 - t * p;
    var k := qa * sr - ar * qs - t;
    assert a * sr == p * k + 1;
    ModAddMultiple(p, k, 1);
    DivModUnique(1, p, 0, 1);
  }

  /** BigInteger.divide on a positive divisor: truncation toward zero. */
  function JavaDiv(x: int, d: int): int
    requires d > 0
  {
    if x >= 0 then x / d else -((-x) / d)
  }

  /** The truncating quotient leaves a remainder of the dividend's sign, smaller than d. */
  lemma JavaDivTruncates(x: int, d: int)
    requires d > 0
    ensures 0 <= x ==> 0 <= x - d * JavaDiv(x, d) < d
    ensures x < 0 ==> -d < x - d * JavaDiv(x, d) <= 0
  {
  }

  /** On an exact multiple the truncating quotient is the true one. */
  lemma JavaDivExact(x: int, d: int)
    requires d > 0 && Divides(d, x)
    ensures d * JavaDiv(x, d) == x
  {
    var k := DividesQuotient(d, x);
    if x < 0 {
      assert -x == d * (-k);
      ModAddMultiple(d, -k, 0);
    }
  }

  /**
    The integer ModInteger keeps for a residue v mod m when lifted symmetrically:
    v - m when 2v > m, else v.
  */
  function SymLift(v: int, m: int): int
  {
    if v + v > m then v - m else v
  }

  /** A symmetric lift lies in (-m/2, m/2] and reduces back to the residue. */
  lemma SymLiftReduces(v: int, m: int)
    requires m > 0 && 0 <= v < m
    ensures -m < 2 * SymLift(v, m) <= m
    ensures SymLift(v, m) % m == v
  {
    if v + v > m {
      DivModUnique(v - m, m, -1, v);
    }
  }

  /** A factor invertible modulo m cancels from a multiple of m. */
  lemma UnitCancels(k: int, u: int, m: int, ui: int)
    requires m > 0 && (u * ui) % m == 1 && Divides(m, u * k)
    ensures Divides(m, k)
  {
    var q := (u * ui) / m;
    assert u * ui == m * q + 1;
    var j := DividesQuotient(m, u * k);
    UnitArith(k, u, m, ui, q, j);
    MultipleDivides(m, ui * j - k * q);
  }

  lemma UnitArith(k: int, u: int, m: int, ui: int, q: int, j: int)
    requires u * ui == m * q + 1 && u * k == m * j
    ensures k == m * (ui * j - k * q)
  {
    assert k * (u * ui) == k * (m * q) + k;
    assert k * (u * ui) == ui * (u * k);
  }
}
