/** Integer number theory: gcd and lcm on absolute values with their zero
    conventions, trial-division primality, the prime-factorisation loop and
    the perfect-square test. */
module NumberTheory {
  import opened Wrappers
  import opened IntArith

  function Abs(x: int): (r: nat)
    ensures r == x || r == -x
  {
    if x < 0 then -x else x
  }

  /** d is a positive divisor of n. */
  predicate Divides(d: int, n: int)
  {
    d > 0 && n % d == 0
  }

  // ------------------------------------------------------ arithmetic facts

  /** A divisor of x and of y divides k*x + y. */
  lemma DividesCombination(d: int, x: int, y: int, k: int)
    requires Divides(d, x) && Divides(d, y)
    ensures Divides(d, k * x + y)
  {
    var x', y' := x / d, y / d;
    assert x == d * x' && y == d * y';
    assert k * x + y == d * (k * x' + y');
    MultipleMod(d, k * x' + y');
  }

  /** Divisibility is transitive. */
  lemma DividesTrans(a: int, b: int, c: int)
    ensures Divides(b, a) && Divides(c, b) ==> Divides(c, a)
  {
    if Divides(b, a) && Divides(c, b) {
      var x, y := a / b, b / c;
      assert a == b * x;
      assert b == c * y;
      assert a == c * (y * x);
      MultipleMod(c, y * x);
    }
  }

  /** A positive number's divisors are no larger than it. */
  lemma DivisorBounded(d: int, n: int)
    requires Divides(d, n) && n > 0
    ensures d <= n
  {
    var q := n / d;
    assert n == d * q;
    MulSign(d, q);
  }

  /** Dividing a multiple of d >= 2 leaves a smaller positive quotient. */
  lemma QuotientStep(n: int, d: int)
    requires n >= 1 && d >= 2 && n % d == 0
    ensures 1 <= n / d < n && (n / d) * d == n
  {
    var q := n / d;
    assert n == d * q;
    MulSign(d, q);
    MulSign(d, q - 1);
  }

  /** i*i <= n with i >= 1 implies i <= n. */
  lemma RootBelow(i: int, n: int)
    requires i >= 1 && i * i <= n
    ensures i <= n
  {
    MulSign(i, i);
  }

  // ------------------------------------------------------------------- gcd

  /** Euclid's algorithm. */
  function GcdNat(a: nat, b: nat): nat
    decreases b
  {
    if b == 0 then a else GcdNat(b, a % b)
  }

  /** g is the greatest common divisor of a and b. */
  ghost predicate IsGcd(a: nat, b: nat, g: nat)
  {
    Divides(g, a) && Divides(g, b)
    && forall d :: Divides(d, a) && Divides(d, b) ==> Divides(d, g) && d <= g
  }

  lemma {:induction false} GcdDividesBoth(a: nat, b: nat)
    requires a > 0 || b > 0
    ensures Divides(GcdNat(a, b), a) && Divides(GcdNat(a, b), b)
    decreases b
  {
    if b > 0 {
      var g := GcdNat(a, b);
      GcdDividesBoth(b, a % b);
      assert a == (a / b) * b + a % b;
      DividesCombination(g, b, a % b, a / b);
    }
  }

  lemma {:induction false} CommonDivisorDividesGcd(a: nat, b: nat, d: int)
    requires Divides(d, a) && Divides(d, b)
    ensures Divides(d, GcdNat(a, b))
    decreases b
  {
    if b > 0 {
      assert a % b == -(a / b) * b + a;
      DividesCombination(d, b, a, -(a / b));
      CommonDivisorDividesGcd(b, a % b, d);
    }
  }

  /** Euclid's algorithm computes the greatest common divisor. */
  lemma GcdNatIsGcd(a: nat, b: nat)
    requires a > 0 || b > 0
    ensures GcdNat(a, b) > 0 && IsGcd(a, b, GcdNat(a, b))
  {
    var g := GcdNat(a, b);
    GcdDividesBoth(a, b);
    forall d | Divides(d, a) && Divides(d, b) ensures Divides(d, g) && d <= g {
      CommonDivisorDividesGcd(a, b, d);
      DivisorBounded(d, g);
    }
  }

  /** Bezout coefficients: the gcd is an integer combination of a and b. */
  lemma {:induction false} Bezout(a: nat, b: nat) returns (x: int, y: int)
    ensures x * a + y * b == GcdNat(a, b)
    decreases b
  {
    if b == 0 {
      x, y := 1, 0;
    } else {
      var x', y' := Bezout(b, a % b);
      var q := a / b;
      DivBounds(a, b);
      BezoutStep(a, b, q, a % b, x', y', GcdNat(a, b));
      x, y := y', x' - y' * q;
    }
  }

  /** The coefficient update of the extended Euclidean algorithm: from a
      combination of b and r = a - q*b to one of a and b. */
  lemma BezoutStep(a: int, b: int, q: int, r: int, x': int, y': int, g: int)
    requires a == q * b + r && x' * b + y' * r == g
    ensures y' * a + (x' - y' * q) * b == g
  {
    assert y' * a == y' * (q * b) + y' * r;
    assert (x' - y' * q) * b == x' * b - y' * (q * b);
  }

  datatype NumberError = GcdUndefined | FactorsOfZero

  /** The `gcd` tool: works on |a| and |b|; gcd(0, 0) is an error. */
  function Gcd(a: int, b: int): (r: Result<nat, NumberError>)
    ensures r.Err? <==> a == 0 && b == 0
    ensures r.Ok? ==> r.value > 0 && IsGcd(Abs(a), Abs(b), r.value)
  {
    if Abs(a) == 0 && Abs(b) == 0 then Err(GcdUndefined)
    else
      GcdNatIsGcd(Abs(a), Abs(b));
      Ok(GcdNat(Abs(a), Abs(b)))
  }

  /** gcd(a, 0) is |a| for every non-zero a. */
  lemma GcdWithZero(a: int)
    requires a != 0
    ensures Gcd(a, 0) == Ok(Abs(a))
  {
  }

  // ------------------------------------------------------------------- lcm

  /** The `lcm` tool: 0 when either argument is 0, otherwise |a|*|b| div gcd. */
  function Lcm(a: int, b: int): (r: nat)
    ensures r == 0 <==> a == 0 || b == 0
  {
    var x, y := Abs(a), Abs(b);
    if x == 0 || y == 0 then 0
    else
      GcdDividesBoth(x, y);
      DivExact(GcdNat(x, y), x, y);
      (x * y) / GcdNat(x, y)
  }

  /** The quotient of an exact division. */
  lemma ExactQuotient(x: int, g: int) returns (q: int)
    requires g > 0 && x % g == 0
    ensures q == x / g && x == g * q
  {
    q := x / g;
  }

  /** Dividing x*y by a common divisor g of x and y. */
  lemma DivExact(g: int, x: int, y: int)
    requires g > 0 && x > 0 && y > 0 && x % g == 0 && y % g == 0
    ensures (x * y) / g == x * (y / g)
    ensures x * (y / g) == (x / g) * y
    ensures x * (y / g) > 0
  {
    var x' := ExactQuotient(x, g);
    var y' := ExactQuotient(y, g);
    assert x * y == g * (x * y');
    MultipleMod(g, x * y');
    assert x * y' == x' * y by {
      assert x * y' == (g * x') * y';
      assert x' * y == x' * (g * y');
    }
    MulSign(g, y');
    MulSign(x, y');
  }

  lemma ScaledMultiple(x: int, y: int, s: int, t: int, m: int, mx: int, my: int)
    requires m == x * mx && m == y * my
    ensures m * (s * x + t * y) == (x * y) * (s * my + t * mx)
  {
    calc {
      m * (s * x + t * y);
      s * (x * m) + t * (y * m);
      s * (x * (y * my)) + t * (y * (x * mx));
      (x * y) * (s * my) + (x * y) * (t * mx);
      (x * y) * (s * my + t * mx);
    }
  }

  /** With r*g = x*y and g = s*x + t*y, every common multiple of x and y is a
      multiple of r. */
  lemma CommonMultiple(x: int, y: int, g: int, r: int, s: int, t: int, m: int)
    requires x > 0 && y > 0 && g > 0 && r > 0
    requires r * g == x * y && s * x + t * y == g
    requires m % x == 0 && m % y == 0
    ensures m % r == 0
  {
    var mx := ExactQuotient(m, x);
    var my := ExactQuotient(m, y);
    ScaledMultiple(x, y, s, t, m, mx, my);
    var k := s * my + t * mx;
    assert m * g == (r * g) * k;
    assert g * m == g * (r * k);
    MulCancel(g, m, r * k);
    MultipleMod(r, k);
  }

  /** For non-zero arguments the result is a common multiple of |a| and |b|,
      it divides every common multiple, and lcm * gcd = |a|*|b|. */
  lemma LcmIsLeastCommonMultiple(a: int, b: int)
    requires a != 0 && b != 0
    ensures Divides(Abs(a), Lcm(a, b)) && Divides(Abs(b), Lcm(a, b))
    ensures Lcm(a, b) * GcdNat(Abs(a), Abs(b)) == Abs(a) * Abs(b)
    ensures forall m :: Divides(Abs(a), m) && Divides(Abs(b), m) ==> Divides(Lcm(a, b), m)
  {
    var x, y := Abs(a), Abs(b);
    var g := GcdNat(x, y);
    GcdDividesBoth(x, y);
    DivExact(g, x, y);
    var r := Lcm(a, b);
    assert r == x * (y / g) == (x / g) * y;
    MultipleMod(x, y / g);
    MultipleMod(y, x / g);
    assert r * g == x * y by {
      var y' := ExactQuotient(y, g);
      assert r * g == x * (y' * g);
    }
    var s, t := Bezout(x, y);
    forall m | Divides(x, m) && Divides(y, m) ensures Divides(r, m) {
      CommonMultiple(x, y, g, r, s, t, m);
    }
  }

  // -------------------------------------------------------------- primality

  /** n is prime: at least 2 and without a divisor strictly between 1 and n. */
  predicate IsPrimeNumber(n: int)
  {
    n >= 2 && forall d :: 2 <= d < n ==> n % d != 0
  }

  /** No number in [2, i) divides n. */
  predicate NoDivisorBelow(n: int, i: int)
  {
    forall e :: 2 <= e < i ==> n % e != 0
  }

  /** The smallest divisor of n that is at least 2 is d, and d < n. */
  predicate SmallestDivisor(n: int, d: int)
  {
    2 <= d < n && n % d == 0 && NoDivisorBelow(n, d)
  }

  /** A divisor d >= i of n, where i*i > n, has a cofactor in [2, i). */
  lemma LargeDivisorHasSmallCofactor(n: int, d: int, i: int)
    requires 2 <= d < n && i >= 2 && i * i > n && d >= i
    ensures n % d == 0 ==> 2 <= n / d < i && n % (n / d) == 0
  {
    if n % d == 0 {
      var e := n / d;
      assert n == e * d by { DivBounds(n, d); }
      assert e >= 2 by { MulSign(d, e - 1); }
      assert e < i by {
        MulSign(d, e - i);
        MulSign(i, d - i);
      }
      assert n % e == 0 by { MultipleMod(e, d); }
    }
  }

  /** A number with no divisor in [2, i), where i*i > n, is prime. */
  lemma NoSmallDivisorMeansPrime(n: int, i: int)
    requires n >= 2 && i >= 2 && i * i > n
    requires NoDivisorBelow(n, i)
    ensures IsPrimeNumber(n)
  {
    forall d | 2 <= d < n ensures n % d != 0 {
      if d >= i {
        LargeDivisorHasSmallCofactor(n, d, i);
      }
    }
  }

  /** An odd trial divisor i with i*i <= n lies below n, and when it does not
      divide n neither does anything below i + 2. */
  lemma TrialDivisor(n: int, i: int)
    requires n % 2 == 1 && i >= 3 && i % 2 == 1 && i * i <= n
    requires NoDivisorBelow(n, i)
    ensures i < n
    ensures n % i != 0 ==> NoDivisorBelow(n, i + 2)
  {
    MulSign(i, i - 1);
    if n % i != 0 {
      NextOddCandidate(n, i);
    }
  }

  datatype PrimeVerdict = TooSmall | Prime | DivisibleBy(divisor: int)

  /** The `is_prime` tool: n < 2 is not prime, 2 is, even n > 2 is divisible
      by 2, and otherwise odd trial divisors 3, 5, ... up to the square root
      are tried, the first one that divides n being reported. */
  method IsPrime(n: int) returns (v: PrimeVerdict)
    ensures v == TooSmall <==> n < 2
    ensures v == Prime <==> IsPrimeNumber(n)
    ensures v.DivisibleBy? ==> SmallestDivisor(n, v.divisor)
  {
    if n < 2 {
      return TooSmall;
    }
    if n == 2 {
      return Prime;
    }
    if n % 2 == 0 {
      return DivisibleBy(2);
    }
    var i := 3;
    while i * i <= n
      invariant i >= 3 && i % 2 == 1
      invariant NoDivisorBelow(n, i)
      decreases n - i
    {
      TrialDivisor(n, i);
      if n % i == 0 {
        return DivisibleBy(i);
      }
      i := i + 2;
    }
    NoSmallDivisorMeansPrime(n, i);
    return Prime;
  }

  // ---------------------------------------------------- prime factorisation

  /** The product of a list of numbers. */
  function Product(s: seq<int>): int
  {
    if |s| == 0 then 1 else Product(s[..|s| - 1]) * s[|s| - 1]
  }

  predicate NonDecreasing(s: seq<int>)
  {
    forall i, j :: 0 <= i < j < |s| ==> s[i] <= s[j]
  }

  /** Every element of s is a prime no larger than bound. */
  predicate PrimesUpTo(s: seq<int>, bound: int)
  {
    forall k :: 0 <= k < |s| ==> IsPrimeNumber(s[k]) && s[k] <= bound
  }

  /** The least divisor d >= 2 of a positive n is prime. */
  lemma LeastDivisorIsPrime(n: int, d: int)
    requires n >= 1 && d >= 2 && n % d == 0
    requires NoDivisorBelow(n, d)
    ensures IsPrimeNumber(d)
  {
    forall e | 2 <= e < d ensures d % e != 0 {
      DividesTrans(n, d, e);
    }
  }

  /** Dividing n by one of its divisors keeps every non-divisor a non-divisor. */
  lemma QuotientKeepsNonDivisors(n: int, d: int, i: int)
    requires n >= 1 && d >= 2 && n % d == 0
    requires NoDivisorBelow(n, i)
    ensures NoDivisorBelow(n / d, i)
  {
    QuotientStep(n, d);
    var q := n / d;
    MultipleMod(q, d);
    assert Divides(q, n);
    forall e | 2 <= e < i ensures q % e != 0 {
      DividesTrans(n, q, e);
    }
  }

  /** Moving factor d from m into the list keeps m * Product(factors). */
  lemma ProductStep(m: int, d: int, factors: seq<int>)
    requires d >= 2 && m % d == 0
    ensures (m / d) * Product(factors + [d]) == m * Product(factors)
  {
    assert (factors + [d])[..|factors|] == factors;
    var q, p := m / d, Product(factors);
    assert m == q * d;
    assert q * (p * d) == (q * d) * p;
  }

  /** One division by i in the factorisation loop keeps its invariants. */
  lemma DivideOut(m: int, i: int, factors: seq<int>)
    requires i >= 2 && m >= 1 && m % i == 0
    requires NonDecreasing(factors) && PrimesUpTo(factors, i)
    requires NoDivisorBelow(m, i)
    ensures m / i >= 1 && m / i < m
    ensures NonDecreasing(factors + [i]) && PrimesUpTo(factors + [i], i)
    ensures NoDivisorBelow(m / i, i)
    ensures (m / i) * Product(factors + [i]) == m * Product(factors)
  {
    QuotientStep(m, i);
    LeastDivisorIsPrime(m, i);
    QuotientKeepsNonDivisors(m, i, i);
    ProductStep(m, i, factors);
  }

  /** Once i no longer divides m, the next candidate i + 2 may be tried:
      i + 1 is even and m is odd. */
  lemma NextOddCandidate(m: int, i: int)
    requires i >= 3 && i % 2 == 1 && m % i != 0 && NoDivisorBelow(m, i)
    ensures NoDivisorBelow(m, i + 2)
  {
    assert m % 2 != 0 && (i + 1) % 2 == 0;
    DividesTrans(m, i + 1, 2);
  }

  /** A remainder m > 1 left when i*i > m is prime and no smaller than the
      factors found so far. */
  lemma LastFactor(m: int, i: int, factors: seq<int>)
    requires m > 1 && i >= 3 && i * i > m && NoDivisorBelow(m, i)
    requires NonDecreasing(factors) && PrimesUpTo(factors, i - 1)
    ensures NonDecreasing(factors + [m]) && PrimesUpTo(factors + [m], m)
    ensures Product(factors + [m]) == Product(factors) * m
  {
    NoSmallDivisorMeansPrime(m, i);
    assert i <= m by {
      assert m % m == 0;
    }
    assert (factors + [m])[..|factors|] == factors;
  }

  /** The division loops of `prime_factors` (for 2 and for each odd i):
      divide i out of m as often as it goes, recording one factor i per
      division. */
  method DivideOutAll(m0: int, i: int, factors0: seq<int>) returns (m: int, factors: seq<int>)
    requires i >= 2 && m0 >= 1
    requires NonDecreasing(factors0) && PrimesUpTo(factors0, i - 1)
    requires NoDivisorBelow(m0, i)
    ensures 1 <= m <= m0 && m % i != 0
    ensures m * Product(factors) == m0 * Product(factors0)
    ensures NonDecreasing(factors) && PrimesUpTo(factors, i)
    ensures NoDivisorBelow(m, i)
  {
    m, factors := m0, factors0;
    while m % i == 0
      invariant 1 <= m <= m0 && m * Product(factors) == m0 * Product(factors0)
      invariant NonDecreasing(factors) && PrimesUpTo(factors, i)
      invariant NoDivisorBelow(m, i)
      decreases m
    {
      DivideOut(m, i, factors);
      factors := factors + [i];
      m := m / i;
    }
  }

  /** The `prime_factors` tool: works on |n|; 0 is an error and 1 has no
      factors; otherwise 2s are divided out, then odd i while i*i is at most
      what remains, and a remainder above 1 is itself a factor. */
  method PrimeFactors(n: int) returns (r: Result<seq<int>, NumberError>)
    ensures r.Err? <==> n == 0
    ensures Abs(n) == 1 ==> r == Ok([])
    ensures r.Ok? ==> Product(r.value) == Abs(n)
    ensures r.Ok? ==> NonDecreasing(r.value)
    ensures r.Ok? ==> forall k :: 0 <= k < |r.value| ==> IsPrimeNumber(r.value[k])
  {
    var m := Abs(n);
    if m == 0 {
      return Err(FactorsOfZero);
    }
    if m == 1 {
      return Ok([]);
    }
    var odd, twos := DivideOutAll(m, 2, []);
    assert NoDivisorBelow(odd, 3);
    var rest, found := OddTrialDivision(odd, twos);
    if rest > 1 {
      found := found + [rest];
    }
    return Ok(found);
  }

  /** The odd-candidate loop of `prime_factors`: for i = 3, 5, ... while
      i*i <= m, divides every i out of m; on exit what is left of m is 1 or a
      prime no smaller than every recorded factor. */
  method OddTrialDivision(m0: int, factors0: seq<int>) returns (m: int, factors: seq<int>)
    requires m0 >= 1 && NoDivisorBelow(m0, 3)
    requires NonDecreasing(factors0) && PrimesUpTo(factors0, 2)
    ensures m >= 1 && m * Product(factors) == m0 * Product(factors0)
    ensures NonDecreasing(factors) && forall k :: 0 <= k < |factors| ==> IsPrimeNumber(factors[k])
    ensures m > 1 ==> Product(factors + [m]) == m * Product(factors)
    ensures m > 1 ==> NonDecreasing(factors + [m]) && PrimesUpTo(factors + [m], m)
  {
    m, factors := m0, factors0;
    var i := 3;
    while i * i <= m
      invariant i >= 3 && i % 2 == 1
      invariant m >= 1 && m * Product(factors) == m0 * Product(factors0)
      invariant NonDecreasing(factors) && PrimesUpTo(factors, i - 1)
      invariant NoDivisorBelow(m, i)
      decreases m - i
    {
      RootBelow(i, m);
      m, factors := DivideOutAll(m, i, factors);
      NextOddCandidate(m, i);
      i := i + 2;
    }
    if m > 1 {
      LastFactor(m, i, factors);
    }
  }

  // ---------------------------------------------------------- perfect square

  /** The integer square root: the largest s with s*s <= n. */
  function ISqrt(n: nat): (s: nat)
    ensures s * s <= n < (s + 1) * (s + 1)
  {
    if n == 0 then 0
    else
      var t := ISqrt(n - 1);
      if (t + 1) * (t + 1) <= n then t + 1 else t
  }

  /** The `is_perfect_square` tool: negatives are not squares, 0 is, and
      otherwise the square root is squared back and compared. */
  function IsPerfectSquare(n: int): (b: bool)
    ensures b <==> exists s: nat :: s * s == n
  {
    if n < 0 then false
    else if n == 0 then assert 0 * 0 == n; true
    else
      RootDecidesSquare(n);
      ISqrt(n) * ISqrt(n) == n
  }

  lemma SquareMonotone(x: nat, y: nat)
    requires x <= y
    ensures x * x <= y * y
  {
  }

  /** n is a square exactly when its integer square root squares back to it. */
  lemma RootDecidesSquare(n: nat)
    ensures ISqrt(n) * ISqrt(n) == n <==> exists s: nat :: s * s == n
  {
    var t := ISqrt(n);
    if exists s: nat :: s * s == n {
      var s: nat :| s * s == n;
      if t < s {
        SquareMonotone(t + 1, s);
      } else if t > s {
        SquareMonotone(s + 1, t);
      }
    }
  }
}
