/**
  The digit prime generator of PrimeInteger (SAC2's DPGEN) and the table of units
  modulo 210.  The generator sieves the odd numbers m, m+2, ..., m+2(k-1) with a bit
  per number, crossing out the proper multiples of 3 and of every 6n-1, 6n+1 whose
  square does not exceed the last number.
*/
module PrimeSieve {
  import opened Numbers

  predicate StrictlyIncreasing(s: seq<int>)
  {
    forall i, j :: 0 <= i < j < |s| ==> s[i] < s[j]
  }

  /** The trial divisors the sieve runs through: 3, then 5, 7, 11, 13, 17, 19, ... */
  predicate IsWheel(d: int)
  {
    d == 3 || (d >= 5 && (d % 6 == 1 || d % 6 == 5))
  }

  /** The number at bit j is a proper multiple of d, so d crosses it out. */
  predicate Crossed(m: int, d: int, j: int)
  {
    Divides(d, m + 2 * j) && m + 2 * j > d
  }

  /** Bit j survives every trial divisor up to e. */
  ghost predicate Survives(m: int, j: int, e: int)
  {
    forall d :: IsWheel(d) && d <= e ==> !Crossed(m, d, j)
  }

  /** The state of the divisor switch: c says how d advances next. */
  predicate WheelState(c: int, d: int)
  {
    (c == 0 && d == 0) || (c == 1 && d == 3) || (c == 2 && d >= 5 && d % 6 == 5)
    || (c == 3 && d >= 7 && d % 6 == 1)
  }

  /** The first bit the sieve clears for d, as the source computes it. */
  function FirstIndex(m: int, d: int): int
    requires d > 0
  {
    var r := m % d;
    var i := if r == 0 then 0 else if r % 2 == 0 then d - r / 2 else (d - r) / 2;
    if m <= d then i + d else i
  }

  // ---------------------------------------------------------------- least divisors

  function LeastDivisorFrom(n: int, i: int): (q: int)
    requires 2 <= i <= n
    ensures i <= q <= n && n % q == 0
    ensures forall e :: i <= e < q ==> n % e != 0
    decreases n - i
  {
    if n % i == 0 then i else LeastDivisorFrom(n, i + 1)
  }

  /** The least divisor above 1 of a number is prime. */
  lemma LeastDivisorPrime(n: int)
    requires n >= 2
    ensures IsPrime(LeastDivisorFrom(n, 2))
  {
    var q := LeastDivisorFrom(n, 2);
    forall e | 2 <= e < q
      ensures q % e != 0
    {
      if q % e == 0 {
        DividesTrans(e, q, n);
      }
    }
  }

  /** The least divisor of a composite number is at most its square root. */
  lemma LeastDivisorSquare(n: int)
    requires n >= 2 && !IsPrime(n)
    ensures var q := LeastDivisorFrom(n, 2); q * q <= n
  {
    var q := LeastDivisorFrom(n, 2);
    var e :| 2 <= e < n && n % e == 0;
    assert q < n;
    var t := DividesQuotient(q, n);
    assert t >= 2 by {
      if t <= 1 {
        MulLe(q, t, 1);
      }
    }
    assert n == t * q;
    MultipleDivides(t, q);
    assert t >= q;
    MulLe(q, q, t);
  }

  /** A prime above 3 is one of the numbers 6n-1, 6n+1. */
  lemma PrimeIsWheel(q: int)
    requires IsPrime(q) && q >= 3
    ensures IsWheel(q)
  {
    if q > 3 {
      var a, r := q / 6, q % 6;
      assert q == 2 * (3 * a) + r && q == 3 * (2 * a) + r;
      ModAddMultiple(2, 3 * a, r);
      ModAddMultiple(3, 2 * a, r);
      assert q % 2 != 0 && q % 3 != 0;
    }
  }

  // ---------------------------------------------------------------- the sieve step

  /** Between two consecutive states of the switch there is no other trial divisor. */
  lemma WheelStep(c: int, d: int, c': int, d': int)
    requires WheelState(c, d)
    requires c == 2 ==> c' == 3 && d' == d + 2
    requires c == 3 ==> c' == 2 && d' == d + 4
    requires c == 0 ==> c' == 1 && d' == 3
    requires c == 1 ==> c' == 2 && d' == 5
    ensures WheelState(c', d') && IsWheel(d') && d < d'
    ensures forall e :: d < e < d' ==> !IsWheel(e)
    ensures d' >= 3 && d' % 2 == 1
  {
    var a := d / 6;
    if c == 2 || c == 3 {
      assert d == 6 * a + d % 6;
    }
    if c == 2 {
      DivModUnique(d', 6, a + 1, 1);
      DivModUnique(d + 1, 6, a + 1, 0);
    } else if c == 3 {
      DivModUnique(d', 6, a, 5);
      DivModUnique(d + 1, 6, a, 2);
      DivModUnique(d + 2, 6, a, 3);
      DivModUnique(d + 3, 6, a, 4);
    }
    if c' == 2 || c' == 3 {
      var b := d' / 6;
      assert d' == 2 * (3 * b) + d' % 6;
      ModAddMultiple(2, 3 * b, d' % 6);
    }
  }

  lemma SurvivesStep(m: int, j: int, d: int, d': int)
    requires d < d' && IsWheel(d')
    requires forall e :: d < e < d' ==> !IsWheel(e)
    ensures Survives(m, j, d') <==> Survives(m, j, d) && !Crossed(m, d', j)
  {
    if Survives(m, j, d) && !Crossed(m, d', j) {
      forall e | IsWheel(e) && e <= d'
        ensures !Crossed(m, e, j)
      {
        if e > d { assert e == d'; }
      }
    }
  }

  lemma MulLe(a: int, b: int, c: int)
    requires a >= 0 && b <= c
    ensures a * b <= a * c
  {
    assert a * c - a * b == a * (c - b);
  }

  /** d stops the sieve exactly when its square passes m2. */
  lemma StopTest(d: int, m2: int)
    requires d > 0 && m2 >= 0
    ensures d > m2 / d <==> d * d > m2
  {
    var q, r := m2 / d, m2 % d;
    assert m2 == d * q + r && 0 <= r < d;
    if d > q {
      MulLe(d, q + 1, d);
      assert d * (q + 1) == d * q + d;
    } else {
      MulLe(d, d, q);
    }
  }

  /** The unadjusted first index: the bit below d whose number d divides. */
  function BaseIndex(m: int, d: int): int
    requires d > 0
  {
    var r := m % d;
    if r == 0 then 0 else if r % 2 == 0 then d - r / 2 else (d - r) / 2
  }

  lemma BaseIndexDivides(m: int, d: int)
    requires m >= 1 && m % 2 == 1 && d >= 3 && d % 2 == 1
    ensures 0 <= BaseIndex(m, d) < d && Divides(d, m + 2 * BaseIndex(m, d))
    ensures m <= d ==> m + 2 * BaseIndex(m, d) == d
    ensures FirstIndex(m, d) == if m <= d then BaseIndex(m, d) + d else BaseIndex(m, d)
  {
    var r, q := m % d, m / d;
    var j0 := BaseIndex(m, d);
    var t := BaseMultiple(m, d, q, r);
    MultipleDivides(d, t);
    if m <= d {
      if m < d {
        DivModUnique(m, d, 0, m);
        assert d == 2 * (d / 2) + 1 && m == 2 * (m / 2) + 1;
        DivModUnique(d - m, 2, d / 2 - m / 2, 0);
        assert j0 == (d - m) / 2;
      } else {
        DivModUnique(m, d, 1, 0);
      }
    }
  }

  lemma BaseMultiple(m: int, d: int, q: int, r: int) returns (t: int)
    requires d >= 3 && d % 2 == 1 && q == m / d && r == m % d
    ensures m + 2 * BaseIndex(m, d) == d * t
  {
    assert m == d * q + r;
    if r == 0 {
      t := q;
    } else if r % 2 == 0 {
      t := q + 2;
      assert 2 * (r / 2) == r;
      assert d * t == d * q + 2 * d;
    } else {
      t := q + 1;
      assert d == 2 * (d / 2) + 1 && r == 2 * (r / 2) + 1;
      DivModUnique(d - r, 2, d / 2 - r / 2, 0);
      assert d * t == d * q + d;
    }
  }

  /** Since 2 is a unit modulo an odd d, the multiples of d among the numbers repeat every d bits. */
  lemma MultiplesRepeat(m: int, d: int, j0: int, j: int)
    requires d >= 3 && d % 2 == 1 && Divides(d, m + 2 * j0)
    ensures Divides(d, m + 2 * j) <==> Divides(d, j - j0)
  {
    assert 2 * ((d + 1) / 2) == d + 1;
    ModAddMultiple(d, 1, 1);
    assert m + 2 * j == (m + 2 * j0) + 2 * (j - j0);
    if Divides(d, m + 2 * j) {
      DividesSum(d, m + 2 * j, m + 2 * j0);
      UnitCancels(j - j0, 2, d, (d + 1) / 2);
    }
    if Divides(d, j - j0) {
      DividesTimes(d, j - j0, 2);
      DividesSum(d, m + 2 * j0, 2 * (j - j0));
    }
  }

  /** A nonnegative j congruent to j0 < d modulo d lies at or above j0, and above it by d or more. */
  lemma CongruentAbove(d: int, j0: int, j: int)
    requires d > 0 && 0 <= j0 < d && j >= 0 && Divides(d, j - j0)
    ensures j >= j0 && (j > j0 ==> j >= j0 + d)
  {
    var t := DividesQuotient(d, j - j0);
    MulAwayFromZero(d, t);
  }

  /** The bits an odd divisor d crosses out are those from FirstIndex on, d apart. */
  lemma FirstIndexExact(m: int, d: int, j: int)
    requires m >= 1 && m % 2 == 1 && d >= 3 && d % 2 == 1 && j >= 0
    ensures FirstIndex(m, d) >= 0
    ensures Crossed(m, d, j) <==> j >= FirstIndex(m, d) && (j - FirstIndex(m, d)) % d == 0
  {
    var j0 := BaseIndex(m, d);
    BaseIndexDivides(m, d);
    MultiplesRepeat(m, d, j0, j);
    if Divides(d, j - j0) {
      CongruentAbove(d, j0, j);
    }
    var i0 := FirstIndex(m, d);
    ModAddMultiple(d, -1, j - j0);
    assert (j - i0) % d == (j - j0) % d;
  }

  /** When the source skips d, no bit holds a proper multiple of d. */
  lemma SkipExact(m: int, d: int, k: int, j: int)
    requires m >= 1 && m % 2 == 1 && d >= 3 && d % 2 == 1
    requires m % d != 0 && m % d + 2 * (k - 1) < d
    requires 0 <= j < k
    ensures !Crossed(m, d, j)
  {
    var j0 := BaseIndex(m, d);
    assert j0 >= k by {
      var r := m % d;
      if r % 2 == 0 {
        assert 2 * (r / 2) == r;
      } else {
        assert 2 * ((d - r) / 2) == d - r;
      }
    }
    BaseIndexDivides(m, d);
    if Divides(d, m + 2 * j) {
      MultiplesRepeat(m, d, j0, j);
      CongruentAbove(d, j0, j);
    }
  }

  /** After the last trial divisor a surviving bit is 1 or a prime. */
  lemma SieveComplete(m: int, m2: int, j: int, d: int, d': int)
    requires m >= 1 && m % 2 == 1 && j >= 0 && m + 2 * j <= m2
    requires 0 <= d < d' && d' * d' > m2
    requires forall e :: d < e < d' ==> !IsWheel(e)
    ensures Survives(m, j, d) <==> m + 2 * j == 1 || IsPrime(m + 2 * j)
  {
    var n := m + 2 * j;
    if IsPrime(n) {
      forall e | IsWheel(e) && e <= d && n > e
        ensures !Divides(e, n)
      {
        assert n % e != 0;
      }
    } else if n != 1 {
      var q := LeastDivisorFrom(n, 2);
      LeastDivisorPrime(n);
      LeastDivisorSquare(n);
      assert n % 2 != 0;
      PrimeIsWheel(q);
      assert q < d' by {
        if q >= d' {
          MulLe(q, d', q);
          MulLe(d', d', q);
        }
      }
      MulLe(q, 2, q);
      assert Crossed(m, q, j);
    }
  }

  /** Stepping the stride i0, i0 + d, ... past i adds exactly the bit i. */
  lemma StrideStep(i0: int, i: int, d: int, t: int, j: int)
    requires d > 0 && t >= 0 && i - i0 == d * t
    ensures (i0 <= j < i + d && (j - i0) % d == 0) <==> (i0 <= j < i && (j - i0) % d == 0) || j == i
    ensures i + d - i0 == d * (t + 1)
  {
    ModAddMultiple(d, t, j - i);
    if i <= j < i + d {
      DivModUnique(j - i, d, 0, j - i);
    }
  }

  /**
    One pass of the compute phase: clear the bits of the proper multiples of the odd
    trial divisor d, skipping d when no multiple falls in range.
  */
  method CrossOut(p: array<bool>, m: int, d: int)
    requires m >= 1 && m % 2 == 1 && d >= 3 && d % 2 == 1
    modifies p
    ensures forall j :: 0 <= j < p.Length ==> p[j] == (old(p[j]) && !Crossed(m, d, j))
  {
    var k := p.Length;
    var h := 2 * (k - 1);
    var r := m % d;
    if r + h >= d || r == 0 {
      var i;
      if r == 0 {
        i := 0;
      } else {
        if r % 2 == 0 {
          i := d - r / 2;
        } else {
          i := (d - r) / 2;
        }
      }
      if m <= d {
        i := i + d;
      }
      ghost var i0, t := i, 0;
      assert i0 == FirstIndex(m, d);
      FirstIndexExact(m, d, 0);
      while i < k
        invariant t >= 0 && i - i0 == d * t
        invariant forall j :: 0 <= j < k ==> p[j] == (old(p[j]) && !(i0 <= j < i && (j - i0) % d == 0))
        decreases k - i
      {
        p[i] := false;
        forall j | 0 <= j < k
          ensures p[j] == (old(p[j]) && !(i0 <= j < i + d && (j - i0) % d == 0))
        {
          StrideStep(i0, i, d, t, j);
        }
        StrideStep(i0, i, d, t, i);
        i, t := i + d, t + 1;
      }
      forall j | 0 <= j < k
        ensures p[j] == (old(p[j]) && !Crossed(m, d, j))
      {
        FirstIndexExact(m, d, j);
      }
    } else {
      forall j | 0 <= j < k
        ensures !Crossed(m, d, j)
      {
        SkipExact(m, d, k, j);
      }
    }
  }

  /**
    The init and compute phases: bit j of the result is set exactly when the odd
    number m + 2j is 1 or a prime.
  */
  method Sieve(m: int, k: int) returns (p: array<bool>)
    requires m >= 1 && m % 2 == 1 && k >= 0 && m + 2 * k >= 3
    ensures fresh(p) && p.Length == k
    ensures forall j :: 0 <= j < k ==> (p[j] <==> m + 2 * j == 1 || IsPrime(m + 2 * j))
  {
    var h := 2 * (k - 1);
    var m2 := m + h;
    p := new bool[k](_ => true);
    var d, c := 0, 0;
    while true
      invariant WheelState(c, d) && 0 <= d <= m2 && (d == 0 || d * d <= m2)
      invariant forall j :: 0 <= j < k ==> (p[j] <==> Survives(m, j, d))
      decreases m2 - d
    {
      ghost var dOld := d;
      ghost var cOld := c;
      if c == 2 {
        d := d + 2;
        c := 3;
      } else if c == 3 {
        d := d + 4;
        c := 2;
      } else if c == 0 {
        d := 3;
        c := 1;
      } else {
        d := 5;
        c := 2;
      }
      WheelStep(cOld, dOld, c, d);
      StopTest(d, m2);
      if d > m2 / d {
        forall j | 0 <= j < k
          ensures p[j] <==> m + 2 * j == 1 || IsPrime(m + 2 * j)
        {
          SieveComplete(m, m2, j, dOld, d);
        }
        break;
      }
      MulLe(d, 1, d);
      CrossOut(p, m, d);
      forall j | 0 <= j < k
        ensures p[j] <==> Survives(m, j, d)
      {
        SurvivesStep(m, j, dOld, d);
      }
    }
  }

  function Count(bits: seq<bool>): nat
  {
    if |bits| == 0 then 0 else (if bits[0] then 1 else 0) + Count(bits[1..])
  }

  /** An empty sieve and a start above 2 leave no prime in range. */
  lemma NoPrimesLeft(bits: seq<bool>, ms: int, mo: int)
    requires ms > 2 && (mo == ms || mo == ms + 1) && mo % 2 == 1 && Count(bits) == 0
    requires forall j :: 0 <= j < |bits| ==> (bits[j] <==> mo + 2 * j == 1 || IsPrime(mo + 2 * j))
    ensures forall x :: !(IsPrime(x) && ms <= x < mo + 2 * |bits|)
  {
    forall x | IsPrime(x) && ms <= x < mo + 2 * |bits|
      ensures false
    {
      assert x % 2 == 1;
      var j := (x - mo) / 2;
      CountZero(bits, j);
    }
  }

  /**
    The output phase shared by both generators: sieve the k odd numbers from mo on
    and list 2 (when the start ms is at most 2) followed by the surviving numbers.
  */
  method CollectPrimes(ms: int, mo: int, k: int) returns (po: seq<int>)
    requires ms >= 1 && (mo == ms || mo == ms + 1) && mo % 2 == 1 && k >= 0
    requires mo + 2 * k >= 3
    ensures StrictlyIncreasing(po)
    ensures forall x :: x in po <==> IsPrime(x) && ms <= x < mo + 2 * k
  {
    var p := Sieve(mo, k);
    var l := Count(p[..]);
    if ms <= 2 {
      l := l + 1;
    }
    if l == 0 {
      NoPrimesLeft(p[..], ms, mo);
      return [];
    }
    if ms == 1 {
      p[0] := false;
    }
    po := [];
    if ms <= 2 {
      po := [2];
    }
    forall j, t | 0 <= j < k && p[j] && 0 <= t < |po|
      ensures po[t] < mo + 2 * j
    {
      assert mo + 2 * j != 1 && IsPrime(mo + 2 * j);
      assert mo + 2 * j != 2;
    }
    ghost var start := po;
    ghost var bits := p[..];
    po := AppendSurvivors(po, p[..], mo);
    SurvivorsArePrimes(po, start, bits, ms, mo);
  }

  /** The output loop: append mo + 2i for every set bit i, in order. */
  method AppendSurvivors(start: seq<int>, bits: seq<bool>, mo: int) returns (po: seq<int>)
    requires StrictlyIncreasing(start)
    requires forall j, t :: 0 <= j < |bits| && bits[j] && 0 <= t < |start| ==> start[t] < mo + 2 * j
    ensures StrictlyIncreasing(po)
    ensures forall x :: x in po <==> x in start || exists j :: 0 <= j < |bits| && bits[j] && x == mo + 2 * j
  {
    var k := |bits|;
    po := start;
    var pl := mo;
    for i := 0 to k
      invariant pl == mo + 2 * i
      invariant StrictlyIncreasing(po)
      invariant forall j :: i <= j < k && bits[j] ==> forall t :: 0 <= t < |po| ==> po[t] < mo + 2 * j
      invariant forall x :: x in po <==> x in start || exists j :: 0 <= j < i && bits[j] && x == mo + 2 * j
    {
      if bits[i] {
        po := po + [pl];
      }
      pl := pl + 2;
    }
  }

  /** The listed numbers are the primes of the range. */
  lemma SurvivorsArePrimes(po: seq<int>, start: seq<int>, bits: seq<bool>, ms: int, mo: int)
    requires ms >= 1 && (mo == ms || mo == ms + 1) && mo % 2 == 1 && mo + 2 * |bits| >= 3
    requires start == if ms <= 2 then [2] else []
    requires forall j :: 0 <= j < |bits| ==> (bits[j] <==> IsPrime(mo + 2 * j))
    requires forall x :: x in po <==> x in start || exists j :: 0 <= j < |bits| && bits[j] && x == mo + 2 * j
    ensures forall x :: x in po <==> IsPrime(x) && ms <= x < mo + 2 * |bits|
  {
    forall x | x in po
      ensures IsPrime(x) && ms <= x < mo + 2 * |bits|
    {
      if x in start {
        assert x == 2;
      } else {
        var j :| 0 <= j < |bits| && bits[j] && x == mo + 2 * j;
      }
    }
    forall x | IsPrime(x) && ms <= x < mo + 2 * |bits| && x != 2
      ensures x in po
    {
      assert x % 2 == 1;
      var j := (x - mo) / 2;
      assert x == mo + 2 * j && 0 <= j < |bits| && bits[j];
    }
  }

  lemma {:induction false} CountZero(bits: seq<bool>, j: int)
    requires Count(bits) == 0 && 0 <= j < |bits|
    ensures !bits[j]
  {
    if j > 0 {
      CountZero(bits[1..], j - 1);
    }
  }

  /**
    smallPrimes(m, K) as written: every prime p with ms <= p < hi in increasing
    order, where ms is m raised to 1 and hi is SieveEnd(m, K).  For an even ms the
    source shortens K by one, so the last odd number below ms + 2K is not sieved.
  */
  method SmallPrimes(m: int, K: int) returns (po: seq<int>)
    requires K >= 1
    ensures StrictlyIncreasing(po)
    ensures forall x :: x in po <==> IsPrime(x) && Start(m) <= x < SieveEnd(m, K)
  {
    var ms := m;
    if ms <= 1 {
      ms := 1;
    }
    var mo := ms;
    var k := K;
    if mo % 2 == 0 {
      mo := mo + 1;
      k := k - 1;
    }
    po := CollectPrimes(ms, mo, k);
  }

  function Start(m: int): int
  {
    if m <= 1 then 1 else m
  }

  /** The end of the range smallPrimes covers as written. */
  function SieveEnd(m: int, K: int): int
  {
    var ms := Start(m);
    if ms % 2 == 0 then ms + 2 * K - 1 else ms + 2 * K
  }

  /**
    smallPrimes with the count of odd numbers kept at K for an even start: every
    prime p with ms <= p < ms + 2K, as the documentation promises.
  */
  method SmallPrimesCorrected(m: int, K: int) returns (po: seq<int>)
    requires K >= 1
    ensures StrictlyIncreasing(po)
    ensures forall x :: x in po <==> IsPrime(x) && Start(m) <= x < Start(m) + 2 * K
  {
    var ms := m;
    if ms <= 1 {
      ms := 1;
    }
    var mo := ms;
    if mo % 2 == 0 {
      mo := mo + 1;
    }
    po := CollectPrimes(ms, mo, K);
    forall x | IsPrime(x) && ms <= x < ms + 2 * K
      ensures x < mo + 2 * K
    {
    }
    forall x | IsPrime(x) && ms <= x < mo + 2 * K
      ensures x < ms + 2 * K
    {
      assert x == 2 || x % 2 == 1;
    }
  }

  /** With m = 2 and K = 2 the promised range [2, 6) holds the prime 5, which the source's range leaves out. */
  lemma SmallPrimesDropsLast()
    ensures IsPrime(5) && Start(2) <= 5 < Start(2) + 2 * 2
    ensures !(5 < SieveEnd(2, 2))
  {
    assert 5 % 2 != 0 && 5 % 3 != 0 && 5 % 4 != 0;
  }

  // ---------------------------------------------------------------- units mod 210

  /** x is a unit of Z/210, written as its least positive residue. */
  predicate Unit210(x: int)
  {
    1 <= x <= 209 && x % 2 == 1 && Gcd(210, x) == 1
  }

  /** The odd residues modulo 210 prime to 210, ascending: the units of Z/210. */
  method GetUZ210() returns (uz: seq<int>)
    ensures StrictlyIncreasing(uz)
    ensures forall x :: x in uz <==> Unit210(x)
  {
    uz := [];
    var i := 1;
    while i <= 209
      invariant 1 <= i <= 211 && i % 2 == 1
      invariant StrictlyIncreasing(uz)
      invariant forall t :: 0 <= t < |uz| ==> uz[t] < i
      invariant forall x :: x in uz <==> 1 <= x < i && x % 2 == 1 && Gcd(210, x) == 1
    {
      if Gcd(210, i) == 1 {
        uz := uz + [i];
      }
      i := i + 2;
    }
  }
}
