# A verified model of the JAS algebra core

This project models five parts of the Java Algebra System (JAS) in Dafny and proves what they promise.

- **Hensel gcd driver.** `GreatestCommonDivisorHensel.baseGcd` computes the gcd of two univariate integer polynomials through modular gcds and a Hensel lift.
- **Polynomial utilities.** These `PolyUtil` routines are modelled:
  - the coefficient conversions between Z, Z/m and Q;
  - coefficient-wise Chinese remaindering;
  - Horner evaluation in the main variable;
  - one-point interpolation;
  - the recursive/distributed round trip;
  - `coeffMaxDegree`, `monic` and `factorBound`;
  - the linear Hensel lift `liftHensel`.
- **Word-size number theory.** From `PrimeInteger`:
  - the segmented sieve `smallPrimes`;
  - trial division by the small primes;
  - the mod-210 wheel search;
  - Selfridge's primality test;
  - Fermat's method with its residue lists;
  - the `factors` driver;
  - the checkers `isPrime`, `isFactorization` and `isPrimeFactorization`.
- **Complex numbers.** `BigComplex` is modelled over exact rationals, written as `real`.
- **Gröbner pair list.** `OrderedPairlist` is the pair queue of the Gröbner basis algorithm. It is keyed by the lcm of leading exponent vectors and keeps the `red` bitsets that the chain criterion `GBCriterion3` reads.

The model keeps the source's form:

- **Loops stay loops.** Code that loops and updates variables is a `method` with a `while` or `for` loop and its invariants. This covers the sieve and the searches, the map-filling conversions, Horner's rule, the lift and the gcd prime loop.
- **The sieve keeps its array.** The sieve clears an `array<bool>` in place.
- **The pair list is a class.** `OrderedPairlist` is a `class` whose fields `P`, `pairlist` and `red` are reassigned by `Put` and `RemoveNext`.
- **Functions stay functions.** Straight-line code is a function: `monic`, `interpolate` and every `BigComplex` operation.

Each method is proved against a specification function or predicate, and lemmas state what the source promises of that specification.

Modules, one per file:

| module | file | models |
|---|---|---|
| `Outcomes` | outcomes.dfy | `Option`, and `Result` for the exceptions the source throws |
| `Numbers` | numbers.dfy | powers, divisibility, Euclid's gcd, modular inverses, Java's truncating division, the symmetric residue |
| `BigComplex` | big_complex.dfy | `BigComplex` |
| `PrimeSieve` | prime_sieve.dfy | `smallPrimes`, `getUZ210` |
| `FactorMap` | factor_map.dfy | the `SortedMap<Long,Integer>` factor maps, `isFactorization` |
| `PrimeSearch` | prime_search.dfy | `smallPrimeDivisors`, `mediumPrimeDivisorSearch`, `primalityTestSelfridge` |
| `FermatSearch` | fermat_search.dfy | `largePrimeDivisorSearch`, `residueListFermatSingle` |
| `Factorization` | prime_integer.dfy | the static tables, `factors`, `isPrime`, `isPrimeFactorization` |
| `SparsePoly` | sparse_poly.dfy | the coefficient conversions and `chineseRemainder` over `map<ExpVector, coefficient>` |
| `RecursivePoly` | recursive_poly.dfy | `recursive`, `distribute`, `coeffMaxDegree` |
| `Univariate` | univariate.dfy | dense univariate polynomials: ring operations, congruence modulo m, division with remainder modulo a prime |
| `PolyUtil` | poly_util.dfy | both `evaluateMain`, `interpolate`, `monic`, `factorBound` |
| `HenselLift` | hensel_lift.dfy | `liftHensel` |
| `HenselGcd` | gcd_hensel.dfy | `GreatestCommonDivisorHensel` |
| `Pairlists` | ordered_pairlist.dfy | `OrderedPairlist` and its inner class `Pair` |

The pieces the core calls but whose code is not part of this model are parameters:

- **In the gcd driver** (`HenselGcd.Library`):
  - the prime list;
  - the modular gcd, exact division and extended gcd;
  - the quadratic lift `PolyUfdUtil.liftHenselQuadratic`;
  - pseudo-division;
  - the subresultant gcd of the superclass.
- **In the pair list:** the term order and `Reduction.GBCriterion4`.
- **In `factors`:** the Fermat residue lists, which `residueListFermat` builds.
- **In the `BigComplex` string constructor:** `BigRational`'s string parsing and printing.

The driver's linear lift is `PolyUfdUtil.liftHensel` (src/edu/jas/ufd/GreatestCommonDivisorHensel.java:220). `PolyUfdUtil` is not part of this model; `HenselGcd.GcdHensel.LiftRound` calls the modelled `PolyUtil.liftHensel` in its place.

## Model

| member | source | states |
|---|---|---|
| BigComplex.CompareTo | arith/BigComplex.java:289-295 | the result is 0 or 1, and 0 exactly when the two numbers are equal |
| BigComplex.Signum | arith/BigComplex.java:305-311 | the sign of re when re is not 0, else the sign of im; 0 exactly for ZERO |
| BigComplex.IsZERO | arith/BigComplex.java:218-221 | true exactly for ZERO |
| BigComplex.IsONE | arith/BigComplex.java:238-241 | true exactly for ONE |
| BigComplex.IsIMAG | arith/BigComplex.java:247-250 | true exactly for the imaginary unit I |
| BigComplex.IsUnit | arith/BigComplex.java:257-259 | true exactly for the nonzero numbers |
| BigComplex.UnitsAreInvertible | arith/BigComplex.java:257-259 | a number is a unit exactly when some number times it is ONE |
| BigComplex.Equals | arith/BigComplex.java:265-272 | true exactly when the real and imaginary parts agree |
| BigComplex.Sum | arith/BigComplex.java:321-324 | subtracting either summand from the sum gives the other |
| BigComplex.Subtract | arith/BigComplex.java:350-353 | the difference is ZERO exactly when the two numbers are equal |
| BigComplex.Negate | arith/BigComplex.java:370-373 | the negation added to a gives ZERO, and it is ZERO minus a |
| BigComplex.Conjugate | arith/BigComplex.java:391-393 | a plus its conjugate is real, a minus it is imaginary, and it is a exactly when a is real |
| BigComplex.NoZeroDivisors | arith/BigComplex.java:437-441 | a product is ZERO exactly when a factor is ZERO |
| BigComplex.Abs | arith/BigComplex.java:401-406 | the squared modulus re²+im² as a real complex number, with no square root taken; 0 exactly for ZERO |
| BigComplex.Norm | arith/BigComplex.java:458-460 | the denominator re²+im² of the inverse is non-negative and 0 only for ZERO |
| BigComplex.AbsIsProductWithConjugate | arith/BigComplex.java:401-406 | abs(a) equals a times its conjugate |
| BigComplex.AbsMultiplicative | arith/BigComplex.java:401-441 | the squared modulus of a product is the product of the squared moduli |
| BigComplex.InverseRe | arith/BigComplex.java:458-462 | the real part of a·(re/n, -im/n) is 1 when n = re²+im² |
| BigComplex.InverseIm | arith/BigComplex.java:458-462 | the imaginary part of a·(re/n, -im/n) is 0 |
| BigComplex.Inverse | arith/BigComplex.java:458-462 | for a nonzero a the inverse times a is ONE, on either side |
| BigComplex.Divide | arith/BigComplex.java:491-493 | for a nonzero divisor b the quotient times b gives back the dividend |
| BigComplex.Remainder | arith/BigComplex.java:469-474 | an error exactly when the divisor is zero, else ZERO, with quotient·b + remainder = a |
| BigComplex.SumIsCommutativeGroup | arith/BigComplex.java:321-373 | sum is commutative and associative with ZERO as unit, negate is its inverse, subtract adds the negation |
| BigComplex.Multiply | arith/BigComplex.java:437-441 | ZERO times anything is ZERO, and on rationals embedded as (x, 0) it is the rational product; it is computed as (re·b.re − im·b.im, re·b.im + im·b.re), and its ring laws (with I·I = −1) are MultiplyCommutative, MultiplyAssociative and MultiplyDistributes |
| BigComplex.MultiplyCommutative | arith/BigComplex.java:437-441 | multiply is commutative |
| BigComplex.MultiplyAssociative | arith/BigComplex.java:437-441 | multiply is associative |
| BigComplex.MultiplyDistributes | arith/BigComplex.java:437-441 | multiply distributes over sum, ONE is its unit, and I·I = -1 |
| BigComplex.ConjugateIsInvolutiveAutomorphism | arith/BigComplex.java:391-393 | conjugating twice is the identity, and conjugation respects sum and product |
| BigComplex.SignumOfNegate | arith/BigComplex.java:305-311 | the signum of -a is minus the signum of a |
| BigComplex.Trim | arith/BigComplex.java:89 | String.trim leaves no blank character at either end |
| BigComplex.TrimStripsBlanks | arith/BigComplex.java:89 | the trimmed string is an infix of the input, and everything the input has before and after it is blank |
| BigComplex.IndexOf | arith/BigComplex.java:90 | the first position of the character, or -1 exactly when it is absent |
| BigComplex.FromString | arith/BigComplex.java:83-108 | the empty string is ZERO; a trimmed string without 'i' is its rational, or the parse error; one with 'i' is the complex number of the trimmed parts before and after the first 'i', or the parse error when either part does not parse |
| BigComplex.ToString | arith/BigComplex.java:194-201 | the text starts with the printed real part, and is only that exactly when the imaginary part is 0 |
| BigComplex.FromStringInvertsToString | arith/BigComplex.java:194-201 | parsing what toString prints gives back the number, whenever the rational printer is one the rational parser inverts |
| BigComplex.ParseBothParts | arith/BigComplex.java:97-107 | a number with nonzero imaginary part is read back from its "re i im" text |
| PrimeSieve.LeastDivisorSquare | src/edu/jas/arith/PrimeInteger.java:129-131 | the least divisor of a composite number is at most its square root, so the sieve may stop at d² > m2 |
| PrimeSieve.PrimeIsWheel | src/edu/jas/arith/PrimeInteger.java:111-128 | every prime from 3 on is 3 or of the form 6n±1, so the divisor switch reaches it |
| PrimeSieve.WheelStep | src/edu/jas/arith/PrimeInteger.java:109-128 | one turn of the switch moves d to the next trial divisor and skips none |
| PrimeSieve.StopTest | src/edu/jas/arith/PrimeInteger.java:129-131 | the test d > m2/d holds exactly when d² > m2 |
| PrimeSieve.BaseIndexDivides | src/edu/jas/arith/PrimeInteger.java:132-145 | the start index the source computes from r = m mod d marks a number divisible by d |
| PrimeSieve.FirstIndexExact | src/edu/jas/arith/PrimeInteger.java:132-149 | the bits d clears are exactly the proper multiples of d in the segment |
| PrimeSieve.SkipExact | src/edu/jas/arith/PrimeInteger.java:133 | when the source skips d (r + h < d and r ≠ 0), no bit holds a proper multiple of d |
| PrimeSieve.SieveComplete | src/edu/jas/arith/PrimeInteger.java:109-131 | after the last trial divisor a surviving bit is 1 or a prime |
| PrimeSieve.CrossOut | src/edu/jas/arith/PrimeInteger.java:132-150 | the bitset after one divisor d: each bit is its old value and not a proper multiple of d |
| PrimeSieve.Sieve | src/edu/jas/arith/PrimeInteger.java:97-151 | bit j is set exactly when m+2j is 1 or prime |
| PrimeSieve.NoPrimesLeft | src/edu/jas/arith/PrimeInteger.java:165-167 | an empty bitset with a start above 2 means the range holds no prime |
| PrimeSieve.AppendSurvivors | src/edu/jas/arith/PrimeInteger.java:178-187 | the output loop appends m+2i for each set bit i, in increasing order |
| PrimeSieve.SurvivorsArePrimes | src/edu/jas/arith/PrimeInteger.java:159-187 | the listed numbers are exactly the primes of the range, 2 included when ms ≤ 2 |
| PrimeSieve.CollectPrimes | src/edu/jas/arith/PrimeInteger.java:97-189 | strictly increasing, and exactly the primes from ms below the end of the sieved segment |
| PrimeSieve.SmallPrimes | src/edu/jas/arith/PrimeInteger.java:78-190 | as written: strictly increasing and exactly the primes p with ms ≤ p < SieveEnd(m, K) |
| PrimeSieve.SmallPrimesCorrected | src/edu/jas/arith/PrimeInteger.java:69-78 | strictly increasing and exactly the primes p with ms ≤ p < ms + 2K, as documented |
| PrimeSieve.SmallPrimesDropsLast | src/edu/jas/arith/PrimeInteger.java:86-89 | for m = 2 and K = 2 the documented range holds 5, which the as-written range leaves out |
| PrimeSieve.GetUZ210 | src/edu/jas/arith/PrimeInteger.java:898-908 | strictly increasing, and exactly the odd i in [1, 209] prime to 210 |
| FactorMap.AddFactor | src/edu/jas/arith/PrimeInteger.java:224-230 | adding a factor adds its prime to the keys and keeps the others |
| FactorMap.SortedStrict | src/edu/jas/arith/PrimeInteger.java:274 | the entries of a factor map come in strictly increasing key order |
| FactorMap.AddFactorSorted | src/edu/jas/arith/PrimeInteger.java:224-230 | the get/increment/put update keeps the keys sorted and adds p to them |
| FactorMap.AddFactorExponent | src/edu/jas/arith/PrimeInteger.java:224-230 | the update raises the multiplicity of p by one and leaves the others |
| FactorMap.AddFactorProd | src/edu/jas/arith/PrimeInteger.java:224-230 | the update multiplies the product of the map by p |
| FactorMap.IsFactorization | src/edu/jas/arith/PrimeInteger.java:294-303 | true exactly when n is the product of p^e over the entries |
| PrimeSearch.SievedPrime | src/edu/jas/arith/PrimeInteger.java:235-246 | a cofactor that no table prime up to its square root divides is prime |
| PrimeSearch.BelowSquare | src/edu/jas/arith/PrimeInteger.java:235 | when QL ≤ PL every prime up to the square root of the cofactor is among the primes tried |
| PrimeSearch.DivideFound | src/edu/jas/arith/PrimeInteger.java:219-231 | dividing out a table prime keeps cofactor times product equal to n and keeps the cofactor free of the earlier primes |
| PrimeSearch.LastFactor | src/edu/jas/arith/PrimeInteger.java:238-247 | putting a prime cofactor into the map leaves cofactor 1 with the product equal to n |
| PrimeSearch.SmallPrimeDivisors | src/edu/jas/arith/PrimeInteger.java:207-250 | the returned cofactor times the product of the new map is n times the old product; new keys are prime; the cofactor is 1 or has no table prime factor; a cofactor other than 1 exceeds the square of the last table prime |
| PrimeSearch.UnitTableEnds | src/edu/jas/arith/PrimeInteger.java:497-517 | the units of Z/210 run from 1 to 209, so the wheel scan always finds an entry |
| PrimeSearch.MediumPrimeDivisorSearch | src/edu/jas/arith/PrimeInteger.java:488-524 | the least candidate in [a, b] (a unit modulo 210) that divides n, or 1 when there is none |
| PrimeSearch.LeastCandidatePrime | src/edu/jas/arith/PrimeInteger.java:356-368 | a divisor found after every smaller divisor has been ruled out is prime |
| PrimeSearch.SeekWitness | src/edu/jas/arith/PrimeInteger.java:563-586 | the inner loop for factor q: -1 on a failed Fermat test, 0 when every base gives 1 at mp/q, 1 with a Lucas witness for q |
| PrimeSearch.PrimalityTestSelfridge | src/edu/jas/arith/PrimeInteger.java:542-588 | -1 only when some base fails Fermat's test, 1 only with a Lucas witness for every prime factor of m-1, 0 only for a nonempty map |
| FermatSearch.Isqrt | src/edu/jas/arith/PrimeInteger.java:349 | the integer square root: r² ≤ n < (r+1)² |
| FermatSearch.FermatDivisor | src/edu/jas/arith/PrimeInteger.java:659-663 | x² - n = y² makes x - y a positive divisor of n |
| FermatSearch.FermatPointSquare | src/edu/jas/arith/PrimeInteger.java:654-660 | x² - n = y² is exactly the case the source detects with the integer square root |
| FermatSearch.FermatLowSquare | src/edu/jas/arith/PrimeInteger.java:615-623 | the lower end XL1 of the search is positive and XL1² ≥ n |
| FermatSearch.FermatStart | src/edu/jas/arith/PrimeInteger.java:636-651 | the first x ≤ XL2 whose residue is in the list, with none skipped above it |
| FermatSearch.StepWithin | src/edu/jas/arith/PrimeInteger.java:665-668 | stepping to the next residue in the list skips no listed x |
| FermatSearch.StepWrap | src/edu/jas/arith/PrimeInteger.java:669-675 | wrapping to the start of the list skips no listed x |
| FermatSearch.DescentStep | src/edu/jas/arith/PrimeInteger.java:653-677 | the invariant: no x from XL up to XL2 with a listed residue is a Fermat point |
| FermatSearch.FermatDescent | src/edu/jas/arith/PrimeInteger.java:653-681 | the result is x - y at the largest listed x with x² - n a square, or 1 when none is found, and divides n |
| FermatSearch.LargePrimeDivisorSearch | src/edu/jas/arith/PrimeInteger.java:603-682 | an error exactly above BETA; n for an empty residue list; otherwise the divisor at the first Fermat point of the descent |
| FermatSearch.Insert | src/edu/jas/arith/PrimeInteger.java:719-722 | TreeSet.add: stays strictly increasing and gains exactly x |
| FermatSearch.SquaresTable | src/edu/jas/arith/PrimeInteger.java:703-709 | the table holds i² mod m for 0 ≤ i ≤ m/2 |
| FermatSearch.SquareTableMeaning | src/edu/jas/arith/PrimeInteger.java:716 | a value is in the table exactly when it is a square modulo m |
| FermatSearch.ListedMeaning | src/edu/jas/arith/PrimeInteger.java:712-724 | x is added, directly or as a negation, exactly when x² - a is a square modulo m |
| FermatSearch.ResidueListFermatSingle | src/edu/jas/arith/PrimeInteger.java:694-728 | strictly increasing, and exactly the residues x modulo m with x² - a a square modulo m, so closed under negation |
| FermatSearch.FermatResidue | src/edu/jas/arith/PrimeInteger.java:694-728 | a Fermat point x of n has its residue in the list for a ≡ n, so the lists lose no solution |
| Factorization.PrimeInteger.constructor | src/edu/jas/arith/PrimeInteger.java:60-66 | SMPRM holds exactly the primes below 10002 and UZ210 exactly the units of Z/210 |
| Factorization.TableOfPrimes | src/edu/jas/arith/PrimeInteger.java:60 | a list of every prime below a bound is a table the trial division can use |
| Factorization.StartPartial | src/edu/jas/arith/PrimeInteger.java:322 | after the small-prime stage the map times the cofactor is n |
| Factorization.PartialDone | src/edu/jas/arith/PrimeInteger.java:323-324 | with cofactor 1 the map is a factor map of n |
| Factorization.PutFactor | src/edu/jas/arith/PrimeInteger.java:358-367 | dividing out a found divisor keeps map times cofactor equal to n, with a smaller cofactor |
| Factorization.PutLast | src/edu/jas/arith/PrimeInteger.java:390-398 | putting the last cofactor gives a factor map of n |
| Factorization.CofactorBound | src/edu/jas/arith/PrimeInteger.java:334 | the cofactor never exceeds n, which bounds the recursion on ML - 1 |
| Factorization.FactorsOfOne | src/edu/jas/arith/PrimeInteger.java:259-262 | the only factor map of 1 is empty, so isPrime(1) is false |
| Factorization.FactorsOfPrime | src/edu/jas/arith/PrimeInteger.java:259-262 | the only factor map of a prime is that prime with multiplicity 1 |
| Factorization.PrimeInteger.Factors | src/edu/jas/arith/PrimeInteger.java:314-400 | an error exactly above BETA; otherwise sorted keys of at least 2 with positive multiplicities whose product is n |
| Factorization.PrimeInteger.IsPrime | src/edu/jas/arith/PrimeInteger.java:259-262 | an error exactly above BETA; false for 1; true for every prime up to BETA; true only for n ≥ 2 |
| Factorization.PrimeInteger.IsPrimeFactorization | src/edu/jas/arith/PrimeInteger.java:272-284 | true only if NL is the product and every key is at least 2; for prime keys up to BETA exactly the factorization test |
| Numbers.JavaDivExact | poly/PolyUtil.java:887 | BigInteger.divide is the exact quotient on an exact multiple |
| Numbers.SymLiftReduces | poly/PolyUtil.java:133-138 | the symmetric lift lies in (-m/2, m/2] and reduces back to the residue |
| SparsePoly.SymmetricLift | poly/PolyUtil.java:128-141 | the same exponents, each coefficient v-m when 2v > m else v, congruent to the residue |
| SparsePoly.IntegerFromModularCoefficients | poly/PolyUtil.java:120-143 | the map loop builds exactly the symmetric lift |
| SparsePoly.IntegerFromModularCoefficientsPositive | poly/PolyUtil.java:154-172 | the integers are the residues themselves |
| SparsePoly.Reduction | poly/PolyUtil.java:243-253 | keeps exactly the exponents whose coefficient does not vanish modulo m, each reduced into (0, m) |
| SparsePoly.FromIntegerCoefficients | poly/PolyUtil.java:233-254 | the map loop builds exactly the reduction |
| SparsePoly.ReductionOfSymmetricLift | poly/PolyUtil.java:133-138 | reducing the symmetric lift of a polynomial over Z/m gives it back |
| SparsePoly.ReductionOfPositiveLift | poly/PolyUtil.java:154-172 | reducing the positive lift gives the polynomial back |
| SparsePoly.SymmetricLiftOfReduction | poly/PolyUtil.java:243-253 | the symmetric lift of the reduction is congruent to the input at every exponent |
| SparsePoly.Lcm | poly/PolyUtil.java:203-204 | c·(x/gcd(c,x)) is a positive common multiple of c and x |
| SparsePoly.LcmLeast | poly/PolyUtil.java:203-204 | every common multiple of c and x is a multiple of it |
| SparsePoly.LcmFirst | poly/PolyUtil.java:199-201 | the first denominator is the lcm of itself |
| SparsePoly.LcmStep | poly/PolyUtil.java:202-205 | one lcm step extends the lcm of the denominators seen to one more |
| SparsePoly.DenominatorLcm | poly/PolyUtil.java:196-206 | the first loop computes the least common multiple of all denominators |
| SparsePoly.ClearDenominator | poly/PolyUtil.java:217-218 | numerator times c/denominator is the coefficient scaled by c |
| SparsePoly.IntegerFromRationalCoefficients | poly/PolyUtil.java:184-222 | the same exponents, each coefficient n·(c/d) with c the lcm of the denominators, so B[e]·d = n·c |
| SparsePoly.CrtCoefficient | poly/PolyUtil.java:366 | the residue modulo m1·m2 that is x modulo m1 and y modulo m2, nonzero unless both are 0 |
| SparsePoly.CrtResidues | poly/PolyUtil.java:366 | x + m1·((y-x)·mi mod m2) reduces to x and to y |
| SparsePoly.CombineWithB | poly/PolyUtil.java:361-377 | the first loop combines every term of B and leaves in av exactly A's terms that B lacks |
| SparsePoly.CombineRest | poly/PolyUtil.java:379-386 | the second loop combines each remaining term of A with 0 |
| SparsePoly.ChineseRemainder | poly/PolyUtil.java:348-388 | S reduces to A modulo m1 and to B modulo m2, on exactly the union of their exponents |
| SparsePoly.CrtUnique | poly/PolyUtil.java:348-388 | any two polynomials with the Chinese remainder property coincide |
| SparsePoly.CrtCoefficientUnique | poly/PolyUtil.java:366 | two residues modulo m1·m2 that agree modulo m1 and modulo m2 are equal |
| RecursivePoly.SumTerm | poly/PolyUtil.java:68 | p.sum(a, g) adds a at g and leaves the other coefficients |
| RecursivePoly.RecursiveStep | poly/PolyUtil.java:56-70 | one term moves to the coefficient of its leading part under its trailing part |
| RecursivePoly.Recursive | poly/PolyUtil.java:44-72 | every term e of A appears as coefficient A[e] at e[..i] → e[i..], and nothing else does |
| RecursivePoly.DistributeCoefficient | poly/PolyUtil.java:95-106 | the inner loop writes every term of one coefficient or finds a collision |
| RecursivePoly.WrittenComplete | poly/PolyUtil.java:90-108 | once every pair is written without collision the result is the distribution |
| RecursivePoly.Distribute | poly/PolyUtil.java:81-109 | the "PolyUtil debug error" exactly when two terms combine to the same exponent, else the distributed polynomial |
| RecursivePoly.DistributeRecursive | poly/PolyUtil.java:44-109 | distributing a recursive representation never collides and gives A back |
| RecursivePoly.RecursiveDistribute | poly/PolyUtil.java:44-109 | the recursive representation of a distribution is the recursive polynomial it came from |
| RecursivePoly.UniformHeadsNoCollision | poly/PolyUtil.java:100-104 | with main exponents of one length no two terms collide |
| RecursivePoly.RecursiveUnique | poly/PolyUtil.java:44-72 | the recursive representation is unique |
| RecursivePoly.MaxDeg | poly/PolyUtil.java:762 | the largest entry of an exponent vector, 0 for the zero vector |
| RecursivePoly.Degree | poly/PolyUtil.java:762 | the largest exponent of any variable in a polynomial |
| RecursivePoly.CoeffMaxDegree | poly/PolyUtil.java:754-768 | the largest exponent in any coefficient, attained there, 0 for the zero polynomial |
| Univariate.Degree | poly/PolyUtil.java:939 | the highest exponent with a nonzero coefficient, 0 for the zero polynomial |
| Univariate.Reduce | poly/PolyUtil.java:857-858 | coefficient-wise reduction into [0, m) |
| Univariate.Lift | poly/PolyUtil.java:944-945 | coefficient-wise symmetric lift |
| Univariate.CongMul | poly/PolyUtil.java:894-906 | products of congruent polynomials are congruent |
| Univariate.EvalCong | poly/PolyUtil.java:735-737 | congruent polynomials take congruent values |
| Univariate.DivRemMod | poly/PolyUtil.java:900-904 | divideAndRemainder modulo a prime: a ≡ q·b + r with r zero or of lower degree than b, both reduced |
| PolyUtil.PositiveExponentsVanish | poly/PolyUtil.java:509-511 | terms of positive exponent vanish at 0 |
| PolyUtil.TrailingIsValueAtZero | poly/PolyUtil.java:509-511 | the trailing coefficient is the value at 0, which justifies the shortcut for a = 0 |
| PolyUtil.EvalTermsPrefix | poly/PolyUtil.java:517-528 | the value of the first k+1 terms adds c_k·a^(e_k) to the value of the first k |
| PolyUtil.EvaluateMain | poly/PolyUtil.java:498-533 | the zero polynomial gives 0; more than one variable is an error; otherwise Σ cᵢ·aⁱ |
| PolyUtil.CoefTerms | poly/PolyUtil.java:468-475 | the terms of one coefficient position of a recursive polynomial |
| PolyUtil.TrailingCoefficientsAtZero | poly/PolyUtil.java:464-466 | the trailing coefficient is the value at 0, coefficient by coefficient |
| PolyUtil.RecursiveHornerStep | poly/PolyUtil.java:472-483 | one Horner step over polynomial coefficients keeps B·a^e equal to the value of the terms seen |
| PolyUtil.MultiplyPower | poly/PolyUtil.java:484-486 | the final loop multiplies B by a^n |
| PolyUtil.EvaluateMainRecursive | poly/PolyUtil.java:453-488 | zero gives 0; more than one variable is an error; otherwise coefficient j of the result is Σ cᵢ[j]·aⁱ |
| PolyUtil.Interpolate | poly/PolyUtil.java:726-747 | over Z/m the result stays reduced |
| PolyUtil.InterpolateKeepsFit | poly/PolyUtil.java:735-740 | when A(am) = a the result is A itself |
| PolyUtil.InterpolateModM | poly/PolyUtil.java:741-746 | the result is A plus a constant multiple of M, so it agrees with A modulo M |
| PolyUtil.InterpolateHitsValue | poly/PolyUtil.java:726-747 | when mi inverts M(am) the result takes the value a at am |
| PolyUtil.RecDegree | poly/PolyUtil.java:403 | the main degree of a recursive polynomial, whose coefficient is its leading coefficient |
| PolyUtil.Monic | poly/PolyUtil.java:397-412 | the result has as many coefficients and stays reduced |
| PolyUtil.UnitScalePattern | poly/PolyUtil.java:408-411 | multiplying by a unit keeps the zero pattern and the degree |
| PolyUtil.MonicNormalises | poly/PolyUtil.java:403-411 | with a unit leading base coefficient lc: the degree is kept, the new leading base coefficient is 1, and lc times each new coefficient is the old one |
| PolyUtil.MonicKeepsNonUnits | poly/PolyUtil.java:400-407 | zero, or a non-unit leading base coefficient, comes back unchanged |
| PolyUtil.MonicIdempotent | poly/PolyUtil.java:397-412 | monic of a monic polynomial is unchanged |
| PolyUtil.BitLengthBound | poly/PolyUtil.java:437 | 2^bitLength(p) exceeds p |
| PolyUtil.BitCountAtMostLength | poly/PolyUtil.java:437 | bitCount never exceeds bitLength |
| PolyUtil.DegreeTotals | poly/PolyUtil.java:429-436 | the loop's n is Σ(2v-1) and its p is Π(v-1) over the positive entries v |
| PolyUtil.FactorBound | poly/PolyUtil.java:422-443 | as written: 1 for the zero vector, else 2 shifted left by (S + bitCount(P) + 1)/2 |
| PolyUtil.FactorBoundCorrected | poly/PolyUtil.java:422-443 | 1 for the zero vector, else 2 shifted left by (S + bitLength(P) + 1)/2 |
| PolyUtil.FactorBoundCovers | poly/PolyUtil.java:437-442 | the corrected bound N satisfies N² ≥ 4·2^S·(P+1) |
| PolyUtil.FactorBoundFallsShort | poly/PolyUtil.java:437 | for the degree vector (5) the as-written bound 64 misses 4·2^9·5 while the corrected bound is 128 |
| Univariate.DivCoefs | poly/PolyUtil.java:887 | coefficient-wise BigInteger division: the same length, each coefficient divided with truncation toward zero |
| Univariate.ExactQuotient | poly/PolyUtil.java:887 | on a polynomial divisible by d the division is exact |
| Univariate.DivCoefsOne | src/edu/jas/ufd/GreatestCommonDivisorHensel.java:99-100 | dividing by 1 changes nothing |
| Univariate.LiftKeepsDegree | poly/PolyUtil.java:944-945 | the symmetric lift of a reduced polynomial keeps its degree |
| Numbers.JavaDivTruncates | poly/PolyUtil.java:887 | BigInteger.divide truncates toward zero: the remainder has the dividend's sign and is smaller than the divisor in magnitude |
| HenselLift.ErrorIsExact | poly/PolyUtil.java:878-887 | when C ≡ Ai·Bi modulo Qi, the error E = (C - Ai·Bi)/Qi is exact |
| HenselLift.BezoutCorrection | poly/PolyUtil.java:890-906 | with S·A + T·B ≡ 1, the corrections A1p = S·Ep mod B and B1p = T·Ep + A·Qp satisfy A·A1p + B·B1p ≡ E modulo p |
| HenselLift.RemainderCong | poly/PolyUtil.java:900-905 | the remainder is Ap - Qp·B modulo p |
| HenselLift.LiftUpdate | poly/PolyUtil.java:916-945 | the update Am + Qm·Ebm modulo Mm lifts to Ai + Qi·Eb modulo Qi·p |
| HenselLift.RoundKeepsInvariant | poly/PolyUtil.java:878-945 | one round turns C ≡ Ai·Bi modulo Qi into C ≡ Ai'·Bi' modulo Qi·p, keeping Ai' ≡ A and Bi' ≡ B modulo p |
| HenselLift.LiftCorrections | poly/PolyUtil.java:878-932 | the round's updated factors are reduced modulo Mm |
| HenselLift.RoundStep | poly/PolyUtil.java:876-953 | under the lift hypotheses one round of the source raises the congruence from Qi to Qi·p |
| HenselLift.InitialLift | poly/PolyUtil.java:849-850 | the symmetric lifts of A and B start the invariant modulo p |
| HenselLift.PowerStep | poly/PolyUtil.java:946-948 | Qi and Mm move to the next powers of p |
| HenselLift.LiftRounds | poly/PolyUtil.java:876-956 | the result is LiftLoop of the starting factors: the factors once Qi reaches 2·M·p or the error C - Ai·Bi vanishes, the degree error exactly at the first round before that whose corrected factors have degrees adding up to more than deg C, and the next round otherwise; on the degree error that round satisfies DegreeFails, and on success C ≡ Ai·Bi modulo Qi and, after a round, deg Ai + deg Bi ≤ deg C |
| HenselLift.LiftStep | poly/PolyUtil.java:887-945 | one round: ok exactly when the corrected factors' degrees add up to at most deg C, and then the new factors are their symmetric lifts from modulo Qi·p, so deg Ai + deg Bi ≤ deg C and, under the lift hypotheses, C ≡ Ai·Bi modulo Qi·p; otherwise the round satisfies DegreeFails |
| HenselLift.LiftHensel | poly/PolyUtil.java:782-973 | the result is LinearLift: zero C gives (C, C); zero A or B and more than one variable are errors; otherwise LiftLoop from the symmetric lifts of A and B. So the degree error comes exactly from a round whose corrected factors have degrees adding up to more than deg C, and success gives factors with C ≡ Ai·Bi modulo p^(k+1) after k rounds and, after a round, deg Ai + deg Bi ≤ deg C |
| HenselGcd.ContentDivides | src/edu/jas/ufd/GreatestCommonDivisorHensel.java:95-96 | the content divides every coefficient |
| HenselGcd.ContentGreatest | src/edu/jas/ufd/GreatestCommonDivisorHensel.java:95-96 | every common divisor of the coefficients divides the content |
| HenselGcd.ContentZero | src/edu/jas/ufd/GreatestCommonDivisorHensel.java:95-100 | the content is 0 exactly for the zero polynomial |
| HenselGcd.PrimitivePartFactors | src/edu/jas/ufd/GreatestCommonDivisorHensel.java:95-100 | content times primitive part is the polynomial |
| HenselGcd.PrimitivePartIsPrimitive | src/edu/jas/ufd/GreatestCommonDivisorHensel.java:99-100 | the primitive part of a nonzero polynomial has content 1 |
| HenselGcd.PrimitivePart | src/edu/jas/ufd/GreatestCommonDivisorHensel.java:99-100 | a polynomial of content 0 or 1 is its own primitive part |
| HenselGcd.AbsNormalises | src/edu/jas/ufd/GreatestCommonDivisorHensel.java:92-93 | abs makes the leading coefficient non-negative and keeps degree and content |
| HenselGcd.Abs | src/edu/jas/ufd/GreatestCommonDivisorHensel.java:92-93 | a or -a, whichever has a non-negative leading coefficient |
| HenselGcd.IsConstant | src/edu/jas/ufd/GreatestCommonDivisorHensel.java:177 | true exactly when the constant coefficient is nonzero and every other coefficient is 0 |
| HenselGcd.MaxNorm | src/edu/jas/ufd/GreatestCommonDivisorHensel.java:206 | maxNorm bounds every coefficient's magnitude |
| HenselGcd.MaxNormAttained | src/edu/jas/ufd/GreatestCommonDivisorHensel.java:206 | and some coefficient attains it |
| HenselGcd.Operands | src/edu/jas/ufd/GreatestCommonDivisorHensel.java:78-100 | for nonzero P and S, after reordering deg r ≤ deg q = max(deg P, deg S), and both are primitive with positive leading coefficients |
| HenselGcd.ContentGcdNormalised | src/edu/jas/ufd/GreatestCommonDivisorHensel.java:95-98 | c, the gcd of the contents after abs, is the gcd of the contents of P and S |
| HenselGcd.ReductionKeepsDegree | src/edu/jas/ufd/GreatestCommonDivisorHensel.java:161-168 | a prime not dividing the leading coefficient keeps the degree of the reduction |
| HenselGcd.AdmissibleExactly | src/edu/jas/ufd/GreatestCommonDivisorHensel.java:145-168 | for primitive operands, a prime passes the five tests exactly when it divides neither leading coefficient |
| HenselGcd.CandidateNormalised | src/edu/jas/ufd/GreatestCommonDivisorHensel.java:227-228 | abs(c·pp(x)) has a non-negative leading coefficient and content c |
| HenselGcd.ScaleOne | src/edu/jas/ufd/GreatestCommonDivisorHensel.java:101-106 | the primitive part 1 times c is the constant c |
| HenselGcd.GcdHensel.constructor | src/edu/jas/ufd/GreatestCommonDivisorHensel.java:45-47 | the default engine lifts quadratically |
| HenselGcd.GcdHensel.WithLift | src/edu/jas/ufd/GreatestCommonDivisorHensel.java:54-56 | the engine records the requested lift |
| HenselGcd.GcdHensel.SkipPrime | src/edu/jas/ufd/GreatestCommonDivisorHensel.java:145-168 | a prime is kept exactly when it divides neither cc nor the two leading coefficients and keeps both degrees; for the loop's starting operands, exactly the admissible primes |
| HenselGcd.GcdHensel.ChooseCofactor | src/edu/jas/ufd/GreatestCommonDivisorHensel.java:182-205 | a cofactor is found exactly when rm/cm or qm/cm has extended gcd 1 with cm; r is chosen when rm/cm has, else q, with that cofactor and its Bezout coefficients |
| HenselGcd.GcdHensel.LiftRound | src/edu/jas/ufd/GreatestCommonDivisorHensel.java:206-228 | the bound is 2·maxNorm·abs(lc) of the chosen operand; the lift is exactly the library's quadratic lift or LinearLift of its arguments; a lift error is passed on, else the candidate abs(c·pp(lift[0])) with non-negative leading coefficient and content c |
| HenselGcd.GcdHensel.LiftCandidate | src/edu/jas/ufd/GreatestCommonDivisorHensel.java:173-228 | the attempt is exactly RoundAttempt: ConstantGcd when the modular gcd is constant; NoUnitCofactor when it is not and neither cofactor has extended gcd 1 with it; otherwise the lift of the chosen operand with its bound, giving its error or the candidate abs(c·pp(lift[0])) with non-negative leading coefficient and content c |
| HenselGcd.GcdHensel.DecideRound | src/edu/jas/ufd/GreatestCommonDivisorHensel.java:173-239 | the round ends the loop exactly when it is not a candidate that fails the pseudo-division test, and then gives c for a constant modular gcd, the subresultant gcd without a unit cofactor, the lift's error, or the candidate that divides both inputs; otherwise the candidate becomes the next q |
| HenselGcd.KeptExactly | src/edu/jas/ufd/GreatestCommonDivisorHensel.java:145-168 | with cc and the degrees taken from q and r, the five tests keep exactly the admissible primes |
| HenselGcd.SkipsInadmissible | src/edu/jas/ufd/GreatestCommonDivisorHensel.java:145-168 | at a prime that is not admissible the loop moves to the next index with q unchanged |
| HenselGcd.RoundAtAdmissible | src/edu/jas/ufd/GreatestCommonDivisorHensel.java:145-239 | at an admissible prime within the budget, a round that ends the loop gives its verdict |
| HenselGcd.LoopFollowsFirstRound | src/edu/jas/ufd/GreatestCommonDivisorHensel.java:136-239 | from any index up to the first admissible one, the loop's result is the verdict of that prime's round whenever the round ends the loop |
| HenselGcd.LoopWithoutAdmissible | src/edu/jas/ufd/GreatestCommonDivisorHensel.java:136-144 | without an admissible prime from index i on, the loop ends in the subresultant gcd |
| HenselGcd.LoopDecidedByFirstRound | src/edu/jas/ufd/GreatestCommonDivisorHensel.java:136-239 | the loop follows its first admissible prime: c for a constant modular gcd, the subresultant gcd without a unit cofactor, the lift error, or a candidate dividing both inputs; and the subresultant gcd when no prime tried is admissible |
| HenselGcd.GcdHensel.TryPrime | src/edu/jas/ufd/GreatestCommonDivisorHensel.java:137-239 | one iteration at trial index i: when it ends the loop its result is LoopResult from i; otherwise LoopResult from the next index and the new q is the same |
| HenselGcd.GcdHensel.PrimeLoop | src/edu/jas/ufd/GreatestCommonDivisorHensel.java:136-239 | the result is LoopResult from index 0: primes that fail the tests are skipped, a round that ends the loop gives its verdict, and a candidate that fails the pseudo-division test replaces q; so the first admissible prime decides every outcome of its round, without an admissible prime among the first 49 the result is the subresultant gcd, and every result is c, the subresultant gcd, a lift error, or a candidate that leaves both pseudo-remainders zero |
| HenselGcd.GcdHensel.BaseGcd | src/edu/jas/ufd/GreatestCommonDivisorHensel.java:67-240 | S = 0 gives P, P = 0 gives S, several variables are an error, a primitive part 1 gives c; otherwise LoopResult of the normalised operands, so the first admissible prime decides the result whenever its round ends the loop (c, the subresultant gcd, the lift error or the dividing candidate), and every result is c, the subresultant gcd, an error, or a candidate dividing both |
| Pairlists.LcmAt | ring/OrderedPairlist.java:89 | EVLCM takes the larger exponent in every variable |
| Pairlists.LcmLeast | ring/OrderedPairlist.java:89 | the lcm is a common multiple and divides every common multiple |
| Pairlists.LcmCommutes | ring/OrderedPairlist.java:89 | the lcm does not depend on the order of its arguments |
| Pairlists.AddPairShape | ring/OrderedPairlist.java:96-101 | adding a pair keeps the keys ascending and every list nonempty |
| Pairlists.AddPairLookup | ring/OrderedPairlist.java:96-101 | the pair is appended at the end of its key's list and no other list changes |
| Pairlists.AddPairFlat | ring/OrderedPairlist.java:96-101 | the queue in removal order gains the pair at one position and is otherwise unchanged |
| Pairlists.AddPairQueue | ring/OrderedPairlist.java:96-101 | the queue gains exactly the new pair and its index pair, and stays free of duplicates |
| Pairlists.PutStep | ring/OrderedPairlist.java:86-102 | one turn of put's loop adds the pair (j, l) under lcm(e, P[j]) |
| Pairlists.BitsHas | ring/OrderedPairlist.java:145 | bit i of red[j] is set exactly when the pair (i, j) is still queued |
| Pairlists.OnceAppend | ring/OrderedPairlist.java:86-102 | a queue is duplicate-free exactly when its parts are and they share no index pair |
| Pairlists.TracksHas | ring/OrderedPairlist.java:167 | under the invariant, red[j].get(i) tells whether (i, j) is still queued |
| Pairlists.PutTracks | ring/OrderedPairlist.java:104-109 | the new bitset with bits 0..l-1 set keeps red tracking the queue |
| Pairlists.Criterion3Chain | ring/OrderedPairlist.java:164-201 | GBCriterion3 holds exactly when (i, j) is queued and no k with lead(P[k]) dividing eij has both chain pairs removed |
| Pairlists.Drain | ring/OrderedPairlist.java:116-151 | the specification of removeNext: it consumes at least one pair when it returns one and the whole queue when it returns none |
| Pairlists.DrainClears | ring/OrderedPairlist.java:145 | every consumed pair has its bit cleared, so red keeps tracking the rest of the queue |
| Pairlists.DrainFound | ring/OrderedPairlist.java:150-151 | the returned pair is the last pair consumed |
| Pairlists.ProgressCompose | ring/OrderedPairlist.java:123-149 | two consecutive stretches of the removal loops compose into one |
| Pairlists.ProgressEnd | ring/OrderedPairlist.java:149-151 | when the loops stop, the state is the one the specification gives |
| Pairlists.NextEntries | ring/OrderedPairlist.java:133-148 | putting back a shortened list, or dropping an emptied key, keeps the map ascending with nonempty lists |
| Pairlists.OrderedPairlist.constructor | ring/OrderedPairlist.java:46-51 | empty P, pair list and red, with the given order and criterion 4 |
| Pairlists.OrderedPairlist.Put | ring/OrderedPairlist.java:75-110 | appends e to P and the bitset {0..l-1} to red; each key's list gains the pairs (j, l) with that lcm key, in order of j; the queue gains exactly the index pairs (j, l) |
| Pairlists.OrderedPairlist.TakePair | ring/OrderedPairlist.java:134-145 | taking one pair clears its bit and advances the specification by one |
| Pairlists.OrderedPairlist.TakeFromList | ring/OrderedPairlist.java:133-146 | the inner loop consumes pairs from one key's list until one passes or the list is empty |
| Pairlists.OrderedPairlist.RemoveNext | ring/OrderedPairlist.java:113-152 | returns the first pair in key order and FIFO order that passes criterion 4 and then criterion 3, or none; every pair consumed before it leaves the queue and has its bit cleared |
| Pairlists.OrderedPairlist.HasNext | ring/OrderedPairlist.java:154-156 | true exactly when a pair is queued |
| Pairlists.OrderedPairlist.GBCriterion3 | ring/OrderedPairlist.java:164-201 | the loop over k computes the chain criterion |

## Left out

- Java `long` overflow: integers are unbounded throughout. `factors` and `largePrimeDivisorSearch` keep the source's BETA = 2^61 - 1 check, but no 64-bit wrap-around is modelled, also not in `isFactorization` and `isPrimeFactorization`, which multiply in `long`.
- `null` arguments are not modelled; every reference is present.
- Logging and debug printing are left out, and so are the commented-out blocks of `liftHensel`.
- `GenPolynomial`, `ModInteger`, `ModLong`, `Roots`, `PrimeList` and `PolyUfdUtil` are not part of this model:
  - the polynomial arithmetic they supply is defined in `Univariate` and `SparsePoly`;
  - the modular gcd, egcd, quadratic lift, pseudo-remainder and subresultant gcd are parameters of `HenselGcd.GcdHensel.BaseGcd`;
  - the prime list is a function from trial index to prime.
- `ModIntegerRing.chineseRemainder` is not part of this model. `SparsePoly.CrtCoefficient` uses the standard formula x + m1·((y - x)·mi mod m2).
- `residueListFermat` is left out because it combines single-modulus lists with `ModLongRing.chineseRemainder`. Its results are a parameter of the `PrimeInteger` constructor, required to be distinct residues in decreasing order, as `largePrimeDivisorSearch` uses them after sorting and reversing.
- `factorsPollard`, `factorsPollardRho` and `rho` are randomised and left out. So are `BigComplex.random`, `CRAND` and `parse(Reader)`, which are random or I/O.
- `hashCode`, `clone`, `copy`, `fromInteger`, `toString` of `BigRational`, and the static `C…` wrappers of `BigComplex` only delegate and are left out. BigRational's string parsing and printing are parameters of `BigComplex.FromString` and `BigComplex.ToString`.
- `evaluate`, `evaluateFirst`, `evaluateFirstRec`, `realPart`, `imaginaryPart`, `complexFromRational` and the recursive `interpolate` of `PolyUtil` are outside the modelled core.
- Polynomials in the pair list are reduced to their leading exponent vectors, and the term order is a strict total order passed to the constructor. `synchronized` is left out because it only matters for concurrency.
- Polynomials in `evaluateMain` are lists of (exponent, coefficient) terms in descending exponent order, as `getMap` iterates them. In the gcd driver and the lift they are dense coefficient sequences.
- `PolyUtil.FactorBound`, `PolyUtil.FactorBoundCorrected`: degree vectors are sequences of naturals; the source's `long[]` is not modelled.
- Factorization.PrimeInteger.IsPrimeFactorization: does not state that Ok(true) means every key is prime, or that a composite key gives Ok(false), because `isPrime` has the same gap. It does state the exact result when every key is a prime up to BETA.
- Factorization.PrimeInteger.Factors: states that the keys are at least 2 and multiply out to n, not that they are prime. Lucas' theorem behind Selfridge's test and Fermat's method is not proved.
- Factorization.PrimeInteger.IsPrime: does not state that a composite n gives false, for the same reason. It requires n ≥ 1, as its documentation asks of callers (src/edu/jas/arith/PrimeInteger.java:254).
- For n ≤ 0, `factors` and `isPrime` are not modelled. The source returns maps that are not factorizations there: {0:1, 2:1} for 0 and {n:1} for a negative n such as -9, which `isPrime` then accepts.
- Factorization.PrimeInteger.constructor: SMPRM is built with the corrected sieve. For m = 2 and K = 5000 both versions list the same primes, because 10001 = 73·137 is composite.
- PrimeSearch.PrimalityTestSelfridge: states the Fermat and Lucas witnesses it finds, not that they prove m prime.
- FermatSearch.LargePrimeDivisorSearch: states that the result is the divisor at the first Fermat point in the listed residues, or n, or 1. It does not state that the result is prime, or that the search range holds every divisor.
- HenselLift.LiftHensel: the congruences hold under the hypotheses C ≡ A·B and S·A + T·B ≡ 1 modulo p, which the source assumes of its callers and does not check. Without them the result is still stated exactly, as `LinearLift`, but not the congruences.
- HenselGcd.GcdHensel.BaseGcd: the result is stated to be c, the library's subresultant gcd, or a candidate that divides both inputs by pseudo-division. That it is the gcd depends on the library operations, which are parameters.
- HenselGcd.GcdHensel.LiftRound: the linear lift is `PolyUtil.liftHensel` (`HenselLift.LiftHensel`) in place of `PolyUfdUtil.liftHensel`, which is not part of this model.
- HenselGcd.GcdHensel.PrimeLoop: the prime list is assumed to yield primes, and the source's `PrimeList` iterator is taken to be unbounded.
- SparsePoly.IntegerFromRationalCoefficients: denominators are positive, as BigRational keeps them, so the source's branch for a negative lcm is never taken.
- PrimeSieve.SmallPrimes: requires K ≥ 1, as the documentation asks of callers.
- Pairlists.OrderedPairlist.RemoveNext: `Reduction.GBCriterion4` is a parameter. The source's single loop over the map iterator is split into the helper methods TakeFromList and TakePair, and the map is a list of entries in ascending key order.

## Findings

| source | as written | input that shows it | evidently intended | confidence | as-written member | corrected member |
|---|---|---|---|---|---|---|
| poly/PolyUtil.java:437 | adds `p.bitCount()`, the number of one bits of p, where the comment says log2(p) | degree vector (5): S = 9, P = 4, bitCount 1 gives the bound 2^6 = 64, and 64² < 4·2^9·(4+1) | `p.bitLength()`, giving 128 and N² ≥ 4·2^S·(P+1) for every vector | medium, not executed | PolyUtil.FactorBoundFallsShort | PolyUtil.FactorBoundCovers |
| src/edu/jas/arith/PrimeInteger.java:86-89 | for an even m the start moves to m+1 and K drops by one, so the sieve stops at m+2K-1 | smallPrimes(2, 2) sieves only 3 and returns [2, 3], while the documented range [2, 6) holds 5 | keep K odd numbers from m+1, covering every prime below m+2K | high, not executed | PrimeSieve.SmallPrimesDropsLast | PrimeSieve.SmallPrimesCorrected |
