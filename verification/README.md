# comp-utility numeric core in Dafny

A model of the `computil` header library (`src/lib_computil.hpp`), which has
three independent numeric components:

- `AP<T>`, a finite arithmetic progression. It holds a first term `a`, a common
  difference `d` and a term count `n`. Module `ArithmeticProgression` models it
  with `a`, `d` as `int` and `n` as `nat`.
  - The datatype constructor `AP(a, d, n)` stands for the three-argument
    constructor.
  - The fields `a`, `d` and `n` stand for `get_first_term`, `get_common_diff`
    and `get_no_of_terms`.
  - The two sums are computed in exact `real` arithmetic.
- `Prime<T>`, the prime utilities. Module `Prime` models them over `int`:
  - trial division up to the square root, with the bound `i <= sqrt(x)`
    written as `i * i <= x`;
  - the downward search for the nearest prime;
  - the sieve of Eratosthenes over a range, as an array method.
- `QuadraticEquation<T>`, the coefficient-derived quantities of
  `a*x*x + b*x + c == 0`. Module `QuadraticEquation` models them over `real`.
  The real square root of the discriminant is passed in as a witness `s`,
  with `s >= 0` and `s * s` equal to the discriminant.

The library documents two exceptions, `std::out_of_range` and
`std::domain_error`. It catches them itself, logs them and falls off the end
of the function without returning a value. Module `Errors` gives them back to
the caller as `Err(OutOfRange)` and `Err(DomainError)` of a `Result`.

The term index of `get_nth_term` is an `unsigned int`, so it is a `nat` here.
The "zero or negative" domain error therefore happens only for index 0, and
since `0 > n` never holds, index 0 always gives the domain error.

Terms at equal distances from the two ends pair up as
`NthTerm(k) + NthTermFromLast(k) == first + last`. The same pairing stated
with `NthTermFromLast(n - k + 1)` does not hold, because that is the k-th
term itself.

## Model

| member | source | states |
|---|---|---|
| ArithmeticProgression.NthTerm | src/lib_computil.hpp:162-178 | Succeeds exactly for 1 <= k <= n, with value a + (k-1)d. An index past n gives OutOfRange; index 0 gives DomainError. |
| ArithmeticProgression.NthTermFromLast | src/lib_computil.hpp:190-206 | Fails exactly when NthTerm fails, with the same error. Otherwise it equals the term at position n - k + 1 from the front. |
| ArithmeticProgression.AllTerms | src/lib_computil.hpp:245-255 | Has exactly n elements. Element i is a + i*d and equals NthTerm(i + 1). |
| ArithmeticProgression.TwiceSumOfTerms | src/lib_computil.hpp:219-222 | Twice the sum of the listed terms is n(2a + (n-1)d). |
| ArithmeticProgression.SumN | src/lib_computil.hpp:219-222 | The closed-form sum (n/2.0)(2a + (n-1)d) equals the sum of the listed terms, so it is always a whole number. |
| ArithmeticProgression.SumFirstLast | src/lib_computil.hpp:69 | n(first + last)/2.0 equals the sum of the terms of every n-term progression that runs from first to last; for n == 0 that is the empty sum 0. |
| ArithmeticProgression.SumNMatchesFirstLast | src/lib_computil.hpp:69 | For n >= 1, the instance sum equals the static sum n(first + last)/2.0 taken with the last term. |
| ArithmeticProgression.PairedTermsSum | src/lib_computil.hpp:190-200 | The k-th term plus the k-th term from the last equals the first term plus the last term. |
| ArithmeticProgression.SetCommonDiff | src/lib_computil.hpp:224-227 | Sets d to v and keeps a and n. The k-th term moves by (k-1)(v - d), so the first term stays. |
| ArithmeticProgression.SetFirstTerm | src/lib_computil.hpp:229-232 | Sets a to v and keeps d and n. Every term shifts by v - a. |
| ArithmeticProgression.SetNoOfTerms | src/lib_computil.hpp:234-237 | Replaces n and leaves a and d unchanged. |
| ArithmeticProgression.SetNoOfTermsKeepsPrefix | src/lib_computil.hpp:234-237 | Changing the term count keeps the terms the old and new progressions share. |
| Prime.IsPrime | src/lib_computil.hpp:257-283 | Trial division while i*i <= x returns true iff x >= 2 and no i in [2, x-1] divides x. It is false for x <= 1. |
| Prime.SquareBoundSuffices | src/lib_computil.hpp:271-278 | Stopping trial division once i*i > x loses nothing: no divisor below i means x is prime. |
| Prime.NearestPrime | src/lib_computil.hpp:330-348 | Returns 2 below 2. Otherwise returns a prime p <= x with no prime in (p, x]. The downward loop stops because 2 is prime. |
| Prime.NearestPrimeExamples | src/lib_computil.hpp:330-348 | The nearest prime is 7 for 10, and 2 for both 2 and 1. |
| Prime.PrimesInRange | src/lib_computil.hpp:285-328 | Gives OutOfRange iff lo < 0, hi < 0 or hi < lo. Otherwise it returns exactly the primes of [lo, hi], strictly ascending. |
| Prime.Sieve | src/lib_computil.hpp:288-312 | The sieve table over [0, hi] is true at k iff k is prime. |
| Prime.CrossOutMultiples | src/lib_computil.hpp:307-311 | One round of the sieve for a still-marked i leaves marked exactly the numbers without a divisor in [2, i] other than themselves. |
| Prime.CompositeCrossesNothing | src/lib_computil.hpp:305-312 | Skipping an i already crossed out loses nothing, because its multiples are already crossed out. |
| Prime.ExactlyPrimesInIsUnique | src/lib_computil.hpp:314-321 | The range result is fully determined: two ascending lists of exactly the primes of [lo, hi] are equal. |
| Prime.PrimesFromFiveToTwentyFive | src/lib_computil.hpp:285-328 | The primes of [5, 25] are [5, 7, 11, 13, 17, 19, 23]. |
| QuadraticEquation.Discriminant | src/lib_computil.hpp:117 | The discriminant D = b*b - 4ac satisfies 4a(a*x*x + b*x + c) == (2ax + b)^2 - D for every x. |
| QuadraticEquation.RootNeedsNonNegativeDiscriminant | src/lib_computil.hpp:117 | If a != 0 and the equation has a real root, the discriminant is not negative. |
| QuadraticEquation.SumOfRoots | src/lib_computil.hpp:118 | For a != 0, the value r with a*r == -b. |
| QuadraticEquation.ProductOfRoots | src/lib_computil.hpp:119 | For a != 0, the value r with a*r == c. |
| QuadraticEquation.RealRoots | src/lib_computil.hpp:350-357 | The first root is (-b + s)/2a and the second (-b - s)/2a. Both solve the equation. They sum to SumOfRoots and multiply to ProductOfRoots (Vieta's relations). |
| QuadraticEquation.RealRootsAreAllRoots | src/lib_computil.hpp:350-357 | x solves the equation iff x is one of the two returned roots. |
| QuadraticEquation.RootsOfOneMinusThreeTwo | src/lib_computil.hpp:350-357 | For x*x - 3x + 2: the discriminant is 1, the roots are (2, 1) in formula order, the sum is 3 and the product is 2. |

## Left out

- `src/test.cpp`: a demonstration `main` that prints to standard output. It calls `getPrimeInRange`, a name the library does not declare.
- Logging to `std::cerr` in the catch blocks, and the missing return value after it. Errors are returned as `Result` values instead.
- `GP`, `BooleanAlgebra` and `random_prime`: these are empty classes or a declaration without a body, so there is no behaviour to model.
- `get_complex_roots`: a floating-point complex computation. It takes the square root of the absolute value of the discriminant, so it gives the genuine roots when the discriminant is zero or negative. For a positive discriminant it returns a conjugate pair instead of the two real roots.
- Floating point in general:
  - `floor`/`ceil` of the arguments of `nearest_prime` and `get_prime_in_range`;
  - the fractional-part test in `is_prime`;
  - rounding of `sqrt` in the loop bounds.
  Prime arguments are whole numbers here.
- The generic element type `T`: the model fixes `int` for the progression and primes, and `real` for the quadratic.
- C++ integer conversions and widths: the `T` to `unsigned int` conversion of the term count (constructor and `set_no_of_terms`), unsigned wrap-around, and overflow. Integers are unbounded here.
- ArithmeticProgression.SumN: with a `T` no wider than `int`, such as `int`, the library computes `2*a + (n-1)*d` in `unsigned int` arithmetic, because `n` is unsigned. Whenever that bracket is negative, it wraps to a large unsigned value before the `double` step, so the library's result differs from the model's. For example, `AP<int>(0, -1, 3)` computes 4294967294 * 1.5 in `double`, which does not fit in `int`, so the conversion back to `T` is undefined; either way the result is not -3. The model keeps the exact sum. For `long long` the unsigned count converts to the signed 64-bit type, and the sum agrees with the model up to `double` precision.
- ArithmeticProgression.SumFirstLast: with a `T` no wider than `int`, such as `int`, the library computes `n*(first + last)` in `unsigned int` arithmetic. Whenever `first + last` is negative, the result differs from the model's exact value. The library also truncates the halved value on return when `T` is integral; the model keeps the exact `real`. For `long long` the product does not wrap, and the sum agrees with the model up to `double` precision.
- ArithmeticProgression.SumFirstLast: the contract pins the result only when some integer step runs from `first` to `last` in `n` terms. Otherwise it says nothing; for example, with a `double` `T` the library returns 1.5 for (0, 1, 3).
- ArithmeticProgression.SumN: for `n == 0` the library computes `n - 1` in unsigned arithmetic and wraps. It then multiplies by `n / 2.0 == 0`, so the result is 0 in both the library and the model.
- Prime.PrimesInRange: the library sizes its table from `upper_limit` before checking for a negative bound. It also writes `primes[1]` past the end of a one-element table when the upper bound is 0. For an `int` `T` with an upper bound of -2 or less, `upper_limit + 1` converts to a huge `size_t`. Then the table constructor, which runs outside the `try` block, throws `std::length_error` to the caller instead of the documented `out_of_range`. The model checks the bounds first and returns `Err(OutOfRange)` there. It also skips the `primes[1]` write; skipping it leaves the result unaffected, because there are no primes below 2.
- Prime.PrimesInRange: the table is `bool` rather than a vector of `T` holding 0 and 1.
- QuadraticEquation.SumOfRoots: requires `a != 0`. The library divides by `a` without a check, which gives infinities or NaN in floating point.
- QuadraticEquation.ProductOfRoots: requires `a != 0`, for the same reason.
- QuadraticEquation.RealRoots: requires `a != 0` and a square-root witness, so the discriminant cannot be negative. For a negative discriminant the library's `sqrt` yields NaN, which has no exact counterpart.
