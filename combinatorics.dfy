/** Factorials, permutations, combinations and Fibonacci numbers, each behind
    the guards the tools apply before computing. */
module Combinatorics {
  import opened Wrappers

  datatype CombError = Negative | TooManySelected | TooLarge

  /** The largest n the factorial, permutation and combination tools accept. */
  const MaxFactorialArgument := 170

  /** The largest index the Fibonacci tool accepts. */
  const MaxFibonacciIndex := 1000

  function Fact(n: nat): (f: nat)
    ensures f >= 1
  {
    if n == 0 then 1 else n * Fact(n - 1)
  }

  /** n * (n-1) * ... * (n-r+1), the number of ordered selections of r items out of n. */
  function Falling(n: nat, r: nat): nat
    requires r <= n
  {
    if r == 0 then 1 else n * Falling(n - 1, r - 1)
  }

  /** The falling factorial is n!/(n-r)!. */
  lemma {:induction false} FallingIsFactorialQuotient(n: nat, r: nat)
    requires r <= n
    ensures Falling(n, r) * Fact(n - r) == Fact(n)
  {
    if r > 0 {
      FallingIsFactorialQuotient(n - 1, r - 1);
      var f, g := Falling(n - 1, r - 1), Fact(n - r);
      assert f * g == Fact(n - 1);
      assert Falling(n, r) == n * f;
      Associate(n, f, g);
    }
  }

  lemma Associate(a: int, b: int, c: int)
    ensures (a * b) * c == a * (b * c)
  {
  }

  /** The number of r-element subsets of an n-element set, by Pascal's rule. */
  function Binomial(n: nat, r: nat): nat
    requires r <= n
  {
    if r == 0 || r == n then 1 else Binomial(n - 1, r - 1) + Binomial(n - 1, r)
  }

  /** C(n, r) * r! * (n-r)! = n!, the product over r and n-r cancelled. */
  lemma {:induction false} BinomialIsFactorialQuotient(n: nat, r: nat)
    requires r <= n
    ensures Binomial(n, r) * Fact(r) * Fact(n - r) == Fact(n)
  {
    if r == 0 || r == n {
    } else {
      BinomialIsFactorialQuotient(n - 1, r - 1);
      BinomialIsFactorialQuotient(n - 1, r);
      var a, b := Binomial(n - 1, r - 1), Binomial(n - 1, r);
      var f1, f2, f3 := Fact(r - 1), Fact(n - 1 - r), Fact(n - 1);
      assert a * f1 * Fact(n - r) == f3;
      assert b * Fact(r) * f2 == f3;
      assert Fact(r) == r * f1;
      assert Fact(n - r) == (n - r) * f2;
      PascalStep(a, b, r, n - r, f1, f2, f3);
    }
  }

  /** The arithmetic of Pascal's step: with a*(r-1)!*(n-r)! = (n-1)! and
      b*r!*(n-1-r)! = (n-1)!, (a + b)*r!*(n-r)! = n*(n-1)!. */
  lemma PascalStep(a: int, b: int, r: int, s: int, f1: int, f2: int, f3: int)
    requires a * f1 * (s * f2) == f3
    requires b * (r * f1) * f2 == f3
    ensures (a + b) * (r * f1) * (s * f2) == (r + s) * f3
  {
    calc {
      (a + b) * (r * f1) * (s * f2);
      r * (a * f1 * (s * f2)) + s * (b * (r * f1) * f2);
      r * f3 + s * f3;
    }
  }

  /** Choosing r items is choosing the n - r items left behind. */
  lemma {:induction false} BinomialSymmetric(n: nat, r: nat)
    requires r <= n
    ensures Binomial(n, r) == Binomial(n, n - r)
  {
    if 0 < r < n {
      BinomialSymmetric(n - 1, r - 1);
      BinomialSymmetric(n - 1, r);
      assert (n - 1) - (r - 1) == n - r;
    }
  }

  /** The `factorial` tool: negative n, then n above the cap, are errors. */
  function Factorial(n: int): (r: Result<nat, CombError>)
    ensures n < 0 <==> r == Err(Negative)
    ensures r.Ok? <==> 0 <= n <= MaxFactorialArgument
    ensures r.Ok? ==> r.value == Fact(n)
  {
    if n < 0 then Err(Negative)
    else if n > MaxFactorialArgument then Err(TooLarge)
    else Ok(Fact(n))
  }

  /** The `permutation` tool: a negative argument, then r > n, then n above
      the cap, are errors; otherwise n!/(n-r)!. */
  function Permutation(n: int, r: int): (p: Result<nat, CombError>)
    ensures n < 0 || r < 0 <==> p == Err(Negative)
    ensures 0 <= n < r ==> p == Err(TooManySelected)
    ensures p.Ok? <==> 0 <= r <= n <= MaxFactorialArgument
    ensures p.Ok? ==> p.value * Fact(n - r) == Fact(n)
  {
    if n < 0 || r < 0 then Err(Negative)
    else if r > n then Err(TooManySelected)
    else if n > MaxFactorialArgument then Err(TooLarge)
    else
      FallingIsFactorialQuotient(n, r);
      Ok(Falling(n, r))
  }

  /** The `combination` tool: the same guards, in the same order, as
      `permutation`; otherwise n!/(r!(n-r)!). */
  function Combination(n: int, r: int): (c: Result<nat, CombError>)
    ensures n < 0 || r < 0 <==> c == Err(Negative)
    ensures 0 <= n < r ==> c == Err(TooManySelected)
    ensures c.Ok? <==> 0 <= r <= n <= MaxFactorialArgument
    ensures c.Ok? ==> c.value * Fact(r) * Fact(n - r) == Fact(n)
  {
    if n < 0 || r < 0 then Err(Negative)
    else if r > n then Err(TooManySelected)
    else if n > MaxFactorialArgument then Err(TooLarge)
    else
      BinomialIsFactorialQuotient(n, r);
      Ok(Binomial(n, r))
  }

  /** The permutation and combination results are determined by the
      factorial equations they satisfy. */
  lemma FactorialQuotientUnique(x: nat, y: nat, k: nat, n: nat)
    requires k >= 1 && x * k == n && y * k == n
    ensures x == y
  {
    assert (x - y) * k == 0;
  }

  /** C(n, r) = C(n, n-r) for every accepted n and r. */
  lemma CombinationSymmetric(n: int, r: int)
    requires 0 <= r <= n <= MaxFactorialArgument
    ensures Combination(n, r) == Combination(n, n - r)
  {
    BinomialSymmetric(n, r);
  }

  /** P(n, 0) = 1, C(n, 0) = 1 and C(n, n) = 1 for every accepted n. */
  lemma EmptyAndFullSelections(n: int)
    requires 0 <= n <= MaxFactorialArgument
    ensures Permutation(n, 0) == Ok(1)
    ensures Combination(n, 0) == Ok(1) && Combination(n, n) == Ok(1)
  {
  }

  /** P(n, r) = C(n, r) * r!: an ordered selection is a subset in some order. */
  lemma PermutationIsCombinationTimesOrderings(n: int, r: int)
    requires 0 <= r <= n <= MaxFactorialArgument
    ensures Permutation(n, r).value == Combination(n, r).value * Fact(r)
  {
    var p, c := Permutation(n, r).value, Combination(n, r).value;
    assert (c * Fact(r)) * Fact(n - r) == Fact(n);
    FactorialQuotientUnique(p, c * Fact(r), Fact(n - r), Fact(n));
  }

  // ------------------------------------------------------------- Fibonacci

  function Fib(n: nat): nat
  {
    if n == 0 then 0 else if n == 1 then 1 else Fib(n - 2) + Fib(n - 1)
  }

  /** The `fibonacci` tool: negative n, then n above 1000, are errors;
      otherwise the pair (a, b) walks up the sequence from (F(0), F(1)). */
  method Fibonacci(n: int) returns (r: Result<nat, CombError>)
    ensures n < 0 <==> r == Err(Negative)
    ensures r.Ok? <==> 0 <= n <= MaxFibonacciIndex
    ensures r.Ok? ==> r.value == Fib(n)
  {
    if n < 0 {
      return Err(Negative);
    }
    if n > MaxFibonacciIndex {
      return Err(TooLarge);
    }
    if n == 0 {
      return Ok(0);
    } else if n == 1 {
      return Ok(1);
    }
    var a, b := 0, 1;
    for k := 2 to n + 1
      invariant a == Fib(k - 2) && b == Fib(k - 1)
    {
      a, b := b, a + b;
    }
    return Ok(b);
  }
}
