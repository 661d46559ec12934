/** The `solve_equations` tool: routing on the equation type, then the case
    analysis of a·x² + b·x + c = 0 and of a·x + b = 0 over exact reals.
    The square root is the host's, passed in as `sqrt`. */
module SolveEquations {
  import opened Wrappers

  /** The names the tool accepts, in source order. */
  const EquationTypes: seq<string> := ["quadratic", "linear"]

  datatype Solution =
    | AllReals
    | Single(x: real)
    | TwoReal(x1: real, x2: real)
    | Repeated(x: real)
    | TwoComplex(re: real, im: real)   // re ± im·i

  datatype SolveError = UnknownType(equationType: string) | MissingCoefficients | NoSolution

  /** x solves a·x² + b·x + c = 0. */
  predicate IsRoot(a: real, b: real, c: real, x: real)
  {
    a * x * x + b * x + c == 0.0
  }

  /** re + im·i solves a·z² + b·z + c = 0: the real and the imaginary part of
      the left-hand side both vanish. */
  predicate IsComplexRoot(a: real, b: real, c: real, re: real, im: real)
  {
    a * (re * re - im * im) + b * re + c == 0.0 && 2.0 * a * re * im + b * im == 0.0
  }

  /** The discriminant b² − 4ac. */
  function Discriminant(a: real, b: real, c: real): real
  {
    b * b - 4.0 * a * c
  }

  /** `_solve_quadratic`. */
  function SolveQuadratic(a: Option<real>, b: Option<real>, c: Option<real>, sqrt: real -> real)
    : (r: Result<Solution, SolveError>)
    ensures r == Err(MissingCoefficients) <==> a.None? || b.None? || c.None?
    ensures r == Err(NoSolution) <==> a == Some(0.0) && b == Some(0.0) && c.Some? && c != Some(0.0)
    ensures r == Ok(AllReals) <==> a == Some(0.0) && b == Some(0.0) && c == Some(0.0)
    ensures r.Ok? && r.value.Single? <==> a == Some(0.0) && b.Some? && b != Some(0.0) && c.Some?
    ensures r.Ok? && r.value.Single? ==> b.value * r.value.x + c.value == 0.0
    ensures r.Ok? && r.value.TwoReal? <==>
              a.Some? && b.Some? && c.Some? && a != Some(0.0) && Discriminant(a.value, b.value, c.value) > 0.0
    ensures r.Ok? && r.value.Repeated? <==>
              a.Some? && b.Some? && c.Some? && a != Some(0.0) && Discriminant(a.value, b.value, c.value) == 0.0
    ensures r.Ok? && r.value.TwoComplex? <==>
              a.Some? && b.Some? && c.Some? && a != Some(0.0) && Discriminant(a.value, b.value, c.value) < 0.0
  {
    if a.None? || b.None? || c.None? then Err(MissingCoefficients)
    else
      var a, b, c := a.value, b.value, c.value;
      if a == 0.0 then
        if b == 0.0 then
          if c == 0.0 then Ok(AllReals) else Err(NoSolution)
        else Ok(Single(-c / b))
      else
        var d := Discriminant(a, b, c);
        if d > 0.0 then
          var s := sqrt(d);
          Ok(TwoReal((-b + s) / (2.0 * a), (-b - s) / (2.0 * a)))
        else if d == 0.0 then Ok(Repeated(-b / (2.0 * a)))
        else Ok(TwoComplex(-b / (2.0 * a), sqrt(-d) / (2.0 * a)))
  }

  /** A value with 2a·x = −b ± s, where s² is the discriminant, is a root. */
  lemma ScaledRoot(a: real, b: real, c: real, x: real, s: real)
    requires a != 0.0 && s * s == Discriminant(a, b, c)
    requires 2.0 * a * x == -b + s || 2.0 * a * x == -b - s
    ensures IsRoot(a, b, c, x)
  {
    var t := 2.0 * a * x;
    assert 4.0 * a * (a * x * x + b * x + c) == t * t + 2.0 * b * t + 4.0 * a * c;
    assert (t + b) * (t + b) == s * s;
    assert 4.0 * a * (a * x * x + b * x + c) == 0.0;
  }

  /** The real and imaginary parts −b/2a and s/2a, where s² is minus the
      discriminant, make a complex root. */
  lemma ScaledComplexRoot(a: real, b: real, c: real, re: real, im: real, s: real)
    requires a != 0.0 && s * s == -Discriminant(a, b, c)
    requires 2.0 * a * re == -b && 2.0 * a * im == s
    ensures IsComplexRoot(a, b, c, re, im)
  {
    var u, v := 2.0 * a * re, 2.0 * a * im;
    assert 4.0 * a * (a * (re * re - im * im) + b * re + c) == u * u - v * v + 2.0 * b * u + 4.0 * a * c;
    assert 4.0 * a * (a * (re * re - im * im) + b * re + c) == 0.0;
    assert 2.0 * a * re * im + b * im == (u + b) * im;
  }

  /** With a ≠ 0 and d > 0 both reported values are roots, provided the
      square root is one. */
  lemma TwoRealRootsSolve(a: real, b: real, c: real, sqrt: real -> real)
    ensures var r := SolveQuadratic(Some(a), Some(b), Some(c), sqrt);
            var d := Discriminant(a, b, c);
            a != 0.0 && d > 0.0 && sqrt(d) * sqrt(d) == d ==>
              r.Ok? && r.value.TwoReal? && IsRoot(a, b, c, r.value.x1) && IsRoot(a, b, c, r.value.x2)
  {
    var d := Discriminant(a, b, c);
    var s := sqrt(d);
    if a != 0.0 && d > 0.0 && s * s == d {
      var ta := 2.0 * a;
      var x1, x2 := (-b + s) / ta, (-b - s) / ta;
      assert ta * x1 == -b + s && ta * x2 == -b - s;
      ScaledRoot(a, b, c, x1, s);
      ScaledRoot(a, b, c, x2, s);
    }
  }

  /** With a ≠ 0 and d = 0 the repeated value −b/2a is a root. */
  lemma RepeatedRootSolves(a: real, b: real, c: real, sqrt: real -> real)
    ensures var r := SolveQuadratic(Some(a), Some(b), Some(c), sqrt);
            a != 0.0 && Discriminant(a, b, c) == 0.0 ==>
              r.Ok? && r.value.Repeated? && IsRoot(a, b, c, r.value.x)
  {
    if a != 0.0 && Discriminant(a, b, c) == 0.0 {
      var x := -b / (2.0 * a);
      assert 2.0 * a * x == -b + 0.0;
      ScaledRoot(a, b, c, x, 0.0);
    }
  }

  /** With a ≠ 0 and d < 0 the reported pair is a complex root, provided the
      square root of −d is one. */
  lemma ComplexRootsSolve(a: real, b: real, c: real, sqrt: real -> real)
    requires a != 0.0 && Discriminant(a, b, c) < 0.0
    requires sqrt(-Discriminant(a, b, c)) * sqrt(-Discriminant(a, b, c)) == -Discriminant(a, b, c)
    ensures var r := SolveQuadratic(Some(a), Some(b), Some(c), sqrt);
            r.Ok? && r.value.TwoComplex? && IsComplexRoot(a, b, c, r.value.re, r.value.im)
  {
    var s := sqrt(-Discriminant(a, b, c));
    var re, im := -b / (2.0 * a), s / (2.0 * a);
    ScaledComplexRoot(a, b, c, re, im, s);
  }

  /** The two real roots are distinct when the square root is positive. */
  lemma TwoRealRootsDistinct(a: real, b: real, c: real, sqrt: real -> real)
    requires a != 0.0 && Discriminant(a, b, c) > 0.0 && sqrt(Discriminant(a, b, c)) > 0.0
    ensures var r := SolveQuadratic(Some(a), Some(b), Some(c), sqrt);
            r.Ok? && r.value.TwoReal? && r.value.x1 != r.value.x2
  {
    var s := sqrt(Discriminant(a, b, c));
    var ta := 2.0 * a;
    var x1, x2 := (-b + s) / ta, (-b - s) / ta;
    assert ta * x1 == -b + s && ta * x2 == -b - s;
  }

  /** `_solve_linear`: a·x + b = 0. */
  function SolveLinear(a: Option<real>, b: Option<real>): (r: Result<Solution, SolveError>)
    ensures r == Err(MissingCoefficients) <==> a.None? || b.None?
    ensures r == Ok(AllReals) <==> a == Some(0.0) && b == Some(0.0)
    ensures r == Err(NoSolution) <==> a == Some(0.0) && b.Some? && b != Some(0.0)
    ensures r.Ok? && r.value.Single? <==> a.Some? && b.Some? && a != Some(0.0)
    ensures r.Ok? && r.value.Single? ==> a.value * r.value.x + b.value == 0.0
    ensures r.Ok? ==> r.value.AllReals? || r.value.Single?
  {
    if a.None? || b.None? then Err(MissingCoefficients)
    else if a.value == 0.0 then
      if b.value == 0.0 then Ok(AllReals) else Err(NoSolution)
    else Ok(Single(-b.value / a.value))
  }

  /** A linear equation has exactly one solution when a ≠ 0: every value
      that solves it is the one reported. */
  lemma LinearSolutionUnique(a: real, b: real, y: real)
    requires a != 0.0 && a * y + b == 0.0
    ensures SolveLinear(Some(a), Some(b)) == Ok(Single(y))
  {
    var x := -b / a;
    assert a * x == -b;
    assert a * (y - x) == 0.0;
    assert y - x == (a * (y - x)) / a;
  }

  /** `solve_equations`: the equation-type check, then the solver; the
      linear solver reads only a and b. */
  function Solve(equationType: string, a: Option<real>, b: Option<real>, c: Option<real>, sqrt: real -> real)
    : (r: Result<Solution, SolveError>)
    ensures r == Err(UnknownType(equationType)) <==> equationType !in EquationTypes
    ensures equationType == "quadratic" ==> r == SolveQuadratic(a, b, c, sqrt)
    ensures equationType == "linear" ==> r == SolveLinear(a, b)
  {
    if equationType == "quadratic" then SolveQuadratic(a, b, c, sqrt)
    else if equationType == "linear" then SolveLinear(a, b)
    else Err(UnknownType(equationType))
  }

  /** A degenerate quadratic (a = 0) is solved exactly as the linear equation
      b·x + c = 0. */
  lemma DegenerateQuadraticIsLinear(b: Option<real>, c: Option<real>, sqrt: real -> real)
    ensures SolveQuadratic(Some(0.0), b, c, sqrt) == SolveLinear(b, c)
  {
  }
}
