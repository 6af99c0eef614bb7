/**
  Complex numbers over exact rationals, as an immutable value type.
  BigRational is exact, so each part is a Dafny `real`.
*/
module BigComplex {
  import opened Outcomes

  datatype Complex = Complex(re: real, im: real)

  const ZERO := Complex(0.0, 0.0)
  const ONE := Complex(1.0, 0.0)
  const I := Complex(0.0, 1.0)

  /** Sign of a rational, as BigRational.signum returns it. */
  function RatSignum(x: real): (s: int)
    ensures s == -1 || s == 0 || s == 1
    ensures s == 0 <==> x == 0.0
    ensures s == 1 <==> x > 0.0
  {
    if x > 0.0 then 1 else if x < 0.0 then -1 else 0
  }

  /** isZERO tests both parts against 0. */
  predicate IsZERO(z: Complex): (b: bool)
    ensures b <==> z == ZERO
  {
    z.re == 0.0 && z.im == 0.0
  }

  predicate IsONE(z: Complex): (b: bool)
    ensures b <==> z == ONE
  {
    z.re == 1.0 && z.im == 0.0
  }

  predicate IsIMAG(z: Complex): (b: bool)
    ensures b <==> z == I
  {
    z.re == 0.0 && z.im == 1.0
  }

  /** Every nonzero complex number is invertible; see UnitsAreInvertible. */
  predicate IsUnit(z: Complex): (b: bool)
    ensures b <==> z != ZERO
  {
    !IsZERO(z)
  }

  /** equals compares both parts, which is equality of the values. */
  predicate Equals(a: Complex, b: Complex): (e: bool)
    ensures e <==> a == b
  {
    a.re == b.re && a.im == b.im
  }

  /** Complex numbers are unordered: compareTo only tells equal (0) from different (1). */
  function CompareTo(a: Complex, b: Complex): (c: int)
    ensures c == 0 || c == 1
    ensures c == 0 <==> a == b
  {
    if Equals(a, b) then 0 else 1
  }

  /** The sign of the real part, or of the imaginary part when the real part is 0. */
  function Signum(z: Complex): (s: int)
    ensures s == -1 || s == 0 || s == 1
    ensures s == 0 <==> z == ZERO
    ensures s == 1 <==> z.re > 0.0 || (z.re == 0.0 && z.im > 0.0)
    ensures s == -1 <==> z.re < 0.0 || (z.re == 0.0 && z.im < 0.0)
  {
    var s := RatSignum(z.re);
    if s != 0 then s else RatSignum(z.im)
  }

  /** Subtracting either summand gives back the other one. */
  function Sum(a: Complex, b: Complex): (s: Complex)
    ensures Subtract(s, b) == a && Subtract(s, a) == b
  {
    Complex(a.re + b.re, a.im + b.im)
  }

  /** The difference is ZERO exactly for equal numbers. */
  function Subtract(a: Complex, b: Complex): (d: Complex)
    ensures IsZERO(d) <==> a == b
  {
    Complex(a.re - b.re, a.im - b.im)
  }

  /** The additive inverse: it sums with a to ZERO and is ZERO minus a. */
  function Negate(a: Complex): (n: Complex)
    ensures Sum(a, n) == ZERO && Subtract(ZERO, a) == n
  {
    Complex(-a.re, -a.im)
  }

  /**
    The conjugate: a plus it is real, a minus it is imaginary, and it equals a exactly when
    a is real.
  */
  function Conjugate(a: Complex): (c: Complex)
    ensures Sum(a, c).im == 0.0 && Subtract(a, c).re == 0.0
    ensures c == a <==> a.im == 0.0
  {
    Complex(a.re, -a.im)
  }

  /**
    BigRational.multiply. The two sign rules it states are the only facts about a product
    that the proofs below use.
  */
  function RatMultiply(x: real, y: real): (r: real)
    ensures (x > 0.0 && y > 0.0) || (x < 0.0 && y < 0.0) ==> r > 0.0
    ensures x == 0.0 || y == 0.0 ==> r == 0.0
  {
    x * y
  }

  /**
    BigComplex.multiply. ZERO absorbs, and on the rationals embedded as Complex(x, 0) it is
    the rational product; its ring laws are the lemmas below.
  */
  function Multiply(a: Complex, b: Complex): (r: Complex)
    ensures a == ZERO || b == ZERO ==> r == ZERO
    ensures a.im == 0.0 && b.im == 0.0 ==> r == Complex(a.re * b.re, 0.0)
  {
    Complex(a.re * b.re - a.im * b.im, a.re * b.im + a.im * b.re)
  }

  /** re*re + im*im, the squared modulus, as a rational. */
  function Norm(a: Complex): (n: real)
    ensures n >= 0.0
    ensures n == 0.0 <==> IsZERO(a)
  {
    RatMultiply(a.re, a.re) + RatMultiply(a.im, a.im)
  }

  /** abs returns the squared modulus; no square root is taken. */
  function Abs(a: Complex): (r: Complex)
    ensures r.im == 0.0 && r.re >= 0.0
    ensures r.re == 0.0 <==> IsZERO(a)
  {
    Complex(Norm(a), 0.0)
  }

  /** The squared modulus is the product with the conjugate. */
  lemma AbsIsProductWithConjugate(a: Complex)
    ensures Abs(a) == Multiply(a, Conjugate(a))
  {
  }

  lemma MulDiv(x: real, y: real, n: real)
    requires n != 0.0
    ensures x * (y / n) == (x * y) / n
  {
  }

  /** The real part of a times its inverse: (re*re + im*im) / n with n the norm. */
  lemma InverseRe(re: real, im: real, n: real)
    requires n != 0.0 && n == re * re + im * im
    ensures re * (re / n) - im * -(im / n) == 1.0
  {
    MulDiv(re, re, n);
    MulDiv(im, im, n);
  }

  /** The imaginary part of a times its inverse: (re*im - im*re) / n. */
  lemma InverseIm(re: real, im: real, n: real)
    requires n != 0.0
    ensures re * -(im / n) + im * (re / n) == 0.0
  {
    MulDiv(re, im, n);
    MulDiv(im, re, n);
  }

  /** The caller passes a nonzero number; the result multiplied by it gives ONE. */
  function Inverse(a: Complex): (r: Complex)
    requires IsUnit(a)
    ensures Multiply(a, r) == ONE
    ensures Multiply(r, a) == ONE
  {
    var n := Norm(a);
    var r := Complex(a.re / n, -(a.im / n));
    InverseRe(a.re, a.im, n);
    InverseIm(a.re, a.im, n);
    MultiplyCommutative(a, r);
    r
  }

  /** Division by a nonzero number is multiplication by its inverse. */
  function Divide(a: Complex, b: Complex): (r: Complex)
    requires IsUnit(b)
    ensures Multiply(r, b) == a
  {
    var w := Inverse(b);
    MultiplyAssociative(a, w, b);
    MultiplyCommutative(w, b);
    Multiply(a, w)
  }

  /** Complex numbers form a field, so the remainder of a division is ZERO;
      a zero divisor raises "division by zero". */
  function Remainder(a: Complex, b: Complex): (r: Result<Complex>)
    ensures r.Err? <==> IsZERO(b)
    ensures r.Ok? ==> r.value == ZERO && Sum(Multiply(Divide(a, b), b), r.value) == a
  {
    if IsZERO(b) then Err("division by zero") else Ok(ZERO)
  }

  lemma SumIsCommutativeGroup(a: Complex, b: Complex, c: Complex)
    ensures Sum(a, b) == Sum(b, a)
    ensures Sum(Sum(a, b), c) == Sum(a, Sum(b, c))
    ensures Sum(a, ZERO) == a
    ensures Sum(a, Negate(a)) == ZERO
    ensures Subtract(a, b) == Sum(a, Negate(b))
    ensures Negate(Negate(a)) == a
  {
  }

  lemma MultiplyCommutative(a: Complex, b: Complex)
    ensures Multiply(a, b) == Multiply(b, a)
  {
  }

  /** The two components of associativity, as identities between rationals. */
  lemma AssociativeParts(x0: real, x1: real, y0: real, y1: real, z0: real, z1: real)
    ensures (x0 * y0 - x1 * y1) * z0 - (x0 * y1 + x1 * y0) * z1
            == x0 * (y0 * z0 - y1 * z1) - x1 * (y0 * z1 + y1 * z0)
    ensures (x0 * y0 - x1 * y1) * z1 + (x0 * y1 + x1 * y0) * z0
            == x0 * (y0 * z1 + y1 * z0) + x1 * (y0 * z0 - y1 * z1)
  {
  }

  lemma MultiplyAssociative(a: Complex, b: Complex, c: Complex)
    ensures Multiply(Multiply(a, b), c) == Multiply(a, Multiply(b, c))
  {
    AssociativeParts(a.re, a.im, b.re, b.im, c.re, c.im);
  }

  lemma MultiplyDistributes(a: Complex, b: Complex, c: Complex)
    ensures Multiply(a, Sum(b, c)) == Sum(Multiply(a, b), Multiply(a, c))
    ensures Multiply(a, ONE) == a
    ensures Multiply(I, I) == Negate(ONE)
  {
    DistributiveParts(a.re, a.im, b.re, b.im, c.re, c.im);
  }

  /** The two components of distributivity, as identities between rationals. */
  lemma DistributiveParts(x0: real, x1: real, y0: real, y1: real, z0: real, z1: real)
    ensures x0 * (y0 + z0) - x1 * (y1 + z1) == (x0 * y0 - x1 * y1) + (x0 * z0 - x1 * z1)
    ensures x0 * (y1 + z1) + x1 * (y0 + z0) == (x0 * y1 + x1 * y0) + (x0 * z1 + x1 * z0)
  {
  }

  /** Conjugation is an involution and a ring automorphism. */
  lemma ConjugateIsInvolutiveAutomorphism(a: Complex, b: Complex)
    ensures Conjugate(Conjugate(a)) == a
    ensures Conjugate(Sum(a, b)) == Sum(Conjugate(a), Conjugate(b))
    ensures Conjugate(Multiply(a, b)) == Multiply(Conjugate(a), Conjugate(b))
  {
  }

  /** The squared modulus is multiplicative. */
  lemma AbsMultiplicative(a: Complex, b: Complex)
    ensures Abs(Multiply(a, b)).re == Abs(a).re * Abs(b).re
  {
    NormParts(a.re, a.im, b.re, b.im);
  }

  /** The two-square identity behind AbsMultiplicative. */
  lemma NormParts(x0: real, x1: real, y0: real, y1: real)
    ensures (x0 * y0 - x1 * y1) * (x0 * y0 - x1 * y1) + (x0 * y1 + x1 * y0) * (x0 * y1 + x1 * y0)
            == (x0 * x0 + x1 * x1) * (y0 * y0 + y1 * y1)
  {
  }

  /** The units are exactly the numbers with a multiplicative inverse. */
  lemma UnitsAreInvertible(z: Complex)
    ensures IsUnit(z) <==> exists w :: Multiply(z, w) == ONE
  {
    if IsUnit(z) {
      assert Multiply(z, Inverse(z)) == ONE;
    }
  }

  /** The product of two nonzero numbers is nonzero: there are no zero divisors. */
  lemma NoZeroDivisors(a: Complex, b: Complex)
    ensures IsZERO(Multiply(a, b)) <==> IsZERO(a) || IsZERO(b)
  {
    if IsZERO(a) || IsZERO(b) {
      assert IsZERO(Multiply(a, b));
    } else if IsZERO(Multiply(a, b)) {
      // b = (a⁻¹·a)·b = a⁻¹·(a·b) = a⁻¹·0 = 0
      var w := Inverse(a);
      calc {
        b;
        { MultiplyDistributes(b, b, b); MultiplyCommutative(b, ONE); }
        Multiply(ONE, b);
        Multiply(Multiply(w, a), b);
        { MultiplyAssociative(w, a, b); }
        Multiply(w, Multiply(a, b));
        Multiply(w, ZERO);
        ZERO;
      }
    }
  }

  lemma SignumOfNegate(a: Complex)
    ensures Signum(Negate(a)) == -Signum(a)
  {
  }

  // ---------------------------------------------------------------------
  // The String constructor.

  /** Java's String.trim: strips every character up to U+0020 at both ends. */
  function Trim(s: string): (t: string)
    ensures |t| <= |s|
    ensures t == [] || (t[0] > ' ' && t[|t| - 1] > ' ')
  {
    if |s| > 0 && s[0] <= ' ' then Trim(s[1..])
    else if |s| > 0 && s[|s| - 1] <= ' ' then Trim(s[..|s| - 1])
    else s
  }

  /** t is s[i..j] and everything of s outside [i, j) is blank. */
  predicate StripsTo(s: string, t: string, i: int, j: int)
  {
    && 0 <= i <= j <= |s| && t == s[i..j]
    && (forall k :: 0 <= k < i ==> s[k] <= ' ')
    && (forall k :: j <= k < |s| ==> s[k] <= ' ')
  }

  lemma StripsToDropFirst(s: string, t: string, i: int, j: int)
    requires |s| > 0 && s[0] <= ' ' && StripsTo(s[1..], t, i, j)
    ensures StripsTo(s, t, i + 1, j + 1)
  {
    assert s[1..][i..j] == s[i + 1..j + 1];
    forall k | 0 < k < |s| ensures s[k] == s[1..][k - 1] { }
  }

  lemma StripsToDropLast(s: string, t: string, i: int, j: int)
    requires |s| > 0 && s[|s| - 1] <= ' ' && StripsTo(s[..|s| - 1], t, i, j)
    ensures StripsTo(s, t, i, j)
  {
    assert s[..|s| - 1][i..j] == s[i..j];
    forall k | 0 <= k < |s| - 1 ensures s[k] == s[..|s| - 1][k] { }
  }

  /**
    Trimming keeps one contiguous piece of the string and removes only blanks around it.
  */
  lemma {:induction false} TrimStripsBlanks(s: string)
    ensures exists i, j :: StripsTo(s, Trim(s), i, j)
  {
    if |s| > 0 && s[0] <= ' ' {
      TrimStripsBlanks(s[1..]);
      var i, j :| StripsTo(s[1..], Trim(s[1..]), i, j);
      StripsToDropFirst(s, Trim(s), i, j);
    } else if |s| > 0 && s[|s| - 1] <= ' ' {
      TrimStripsBlanks(s[..|s| - 1]);
      var i, j :| StripsTo(s[..|s| - 1], Trim(s[..|s| - 1]), i, j);
      StripsToDropLast(s, Trim(s), i, j);
    } else {
      assert StripsTo(s, Trim(s), 0, |s|);
    }
  }

  /** A string with no blank character at either end. */
  predicate Trimmed(s: string) { s == [] || (s[0] > ' ' && s[|s| - 1] > ' ') }

  lemma TrimOfTrimmed(s: string)
    requires Trimmed(s)
    ensures Trim(s) == s
  {
  }

  /** String.indexOf for one character: the first position of c, or -1. */
  function IndexOf(s: string, c: char): (k: int)
    ensures -1 <= k < |s|
    ensures k == -1 <==> c !in s
    ensures k >= 0 ==> s[k] == c && c !in s[..k]
  {
    if |s| == 0 then -1
    else if s[0] == c then 0
    else
      var k := IndexOf(s[1..], c);
      if k == -1 then -1 else (assert s[..k + 1] == [s[0]] + s[1..][..k]; k + 1)
  }

  /**
    BigComplex(String): an empty string is ZERO; otherwise, after trimming, the text before
    the first 'i' is the real part and the text after it the imaginary part; with no 'i' the
    whole string is the real part. Each part goes through the BigRational string constructor,
    which is not part of this model and is the parameter `rational`; None stands for its
    NumberFormatException.
  */
  function FromString(s: string, rational: string -> Option<real>): (r: Result<Complex>)
    ensures s == [] ==> r == Ok(ZERO)
    ensures s != [] && 'i' !in Trim(s) ==>
      r == (if rational(Trim(s)).Some? then Ok(Complex(rational(Trim(s)).value, 0.0)) else Err("NumberFormatException"))
    ensures s != [] && 'i' in Trim(s) ==>
      var t := Trim(s);
      var k := IndexOf(t, 'i');
      var (x, y) := (rational(Trim(t[..k])), rational(Trim(t[k + 1..])));
      r == (if x.Some? && y.Some? then Ok(Complex(x.value, y.value)) else Err("NumberFormatException"))
  {
    if s == [] then Ok(ZERO)
    else
      var t := Trim(s);
      var k := IndexOf(t, 'i');
      if k < 0 then
        match rational(t)
        case None => Err("NumberFormatException")
        case Some(x) => Ok(Complex(x, 0.0))
      else
        var sr := if k > 0 then t[..k] else "";
        var si := t[k + 1..];
        match (rational(Trim(sr)), rational(Trim(si)))
        case (Some(x), Some(y)) => Ok(Complex(x, y))
        case _ => Err("NumberFormatException")
  }

  /**
    toString: the real part, followed by "i" and the imaginary part when that is not 0. The
    text of the real part always comes first, and it is the whole text exactly for a real z.
  */
  function ToString(z: Complex, show: real -> string): (s: string)
    ensures |show(z.re)| <= |s| && s[..|show(z.re)|] == show(z.re)
    ensures s == show(z.re) <==> z.im == 0.0
  {
    show(z.re) + (if z.im == 0.0 then "" else "i" + show(z.im))
  }

  /**
    Parsing what toString prints gives the number back, for any rendering of rationals that
    the rational parser inverts and that prints no 'i' and no surrounding blanks.
  */
  lemma {:induction false} FromStringInvertsToString(z: Complex, show: real -> string, rational: string -> Option<real>)
    requires forall x :: rational(show(x)) == Some(x)
    requires forall x :: 'i' !in show(x) && Trimmed(show(x)) && show(x) != []
    ensures FromString(ToString(z, show), rational) == Ok(z)
  {
    if z.im == 0.0 {
      ParseRealOnly(z, show, rational);
    } else {
      ParseBothParts(z, show, rational);
    }
  }

  lemma ParseRealOnly(z: Complex, show: real -> string, rational: string -> Option<real>)
    requires forall x :: rational(show(x)) == Some(x)
    requires forall x :: 'i' !in show(x) && Trimmed(show(x)) && show(x) != []
    requires z.im == 0.0
    ensures FromString(ToString(z, show), rational) == Ok(z)
  {
    var a := show(z.re);
    assert ToString(z, show) == a;
    TrimOfTrimmed(a);
    assert IndexOf(a, 'i') == -1;
    assert rational(a) == Some(z.re);
  }

  lemma ParseBothParts(z: Complex, show: real -> string, rational: string -> Option<real>)
    requires forall x :: rational(show(x)) == Some(x)
    requires forall x :: 'i' !in show(x) && Trimmed(show(x)) && show(x) != []
    requires z.im != 0.0
    ensures FromString(ToString(z, show), rational) == Ok(z)
  {
    var a, b := show(z.re), show(z.im);
    var s := a + "i" + b;
    assert ToString(z, show) == s;
    JoinedShape(a, b);
    TrimOfTrimmed(a);
    TrimOfTrimmed(b);
  }

  /** The text a + "i" + b of two trimmed parts without 'i' splits back at its 'i'. */
  lemma JoinedShape(a: string, b: string)
    requires 'i' !in a && Trimmed(a) && a != [] && Trimmed(b) && b != []
    ensures var s := a + "i" + b;
      s != [] && Trim(s) == s && IndexOf(s, 'i') == |a| && s[..|a|] == a && s[|a| + 1..] == b
  {
    var s := a + "i" + b;
    assert s[0] == a[0] && s[|s| - 1] == b[|b| - 1];
    TrimOfTrimmed(s);
    IndexOfConcat(a, b);
    assert s[..|a|] == a;
    assert s[|a| + 1..] == b;
  }

  lemma {:induction false} IndexOfConcat(a: string, b: string)
    requires 'i' !in a
    ensures IndexOf(a + "i" + b, 'i') == |a|
  {
    if a != [] {
      assert (a + "i" + b)[1..] == a[1..] + "i" + b;
      IndexOfConcat(a[1..], b);
    }
  }
}
