/** The arithmetic tools: the zero check of `divide`, and the character gate
    and exception mapping that `calculate` puts around the host's expression
    evaluator, which is passed in as `eval`. */
module Arithmetic {
  import opened Wrappers
  import Text

  datatype DivideError = DivisionByZero

  /** `divide`. */
  function Divide(a: real, b: real): (r: Result<real, DivideError>)
    ensures r.Err? <==> b == 0.0
    ensures r.Ok? ==> r.value * b == a
  {
    if b == 0.0 then Err(DivisionByZero) else Ok(a / b)
  }

  /** Dividing a product by a non-zero factor gives the other factor back. */
  lemma DivideUndoesMultiply(a: real, b: real)
    requires b != 0.0
    ensures Divide(a * b, b) == Ok(a)
  {
    assert (a * b) / b == a;
  }

  /** The characters `calculate` lets through besides whitespace. */
  const AllowedChars: string := "0123456789+-*/.()"

  /** A character that passes the gate: one of the allowed ones or whitespace
      in the sense of `str.isspace`. */
  predicate Allowed(c: char)
  {
    c in AllowedChars || Text.IsSpace(c)
  }

  /** A letter of the ASCII alphabet. */
  predicate AsciiLetter(c: char)
  {
    'a' <= c <= 'z' || 'A' <= c <= 'Z'
  }

  /** An allowed character is no letter, no underscore, and ASCII unless it
      is whitespace. */
  lemma AllowedIsNoNameChar(c: char)
    requires Allowed(c)
    ensures !AsciiLetter(c) && c != '_' && (c as int < 128 || Text.IsSpace(c))
  {
    if c in AllowedChars {
      var k :| 0 <= k < |AllowedChars| && AllowedChars[k] == c;
      assert AllowedChars[k] as int < 128 && AllowedChars[k] != '_' && !AsciiLetter(AllowedChars[k]);
    }
  }

  /** The gate: every character of the expression is allowed; so an
      expression that passes holds no ASCII letter and no underscore. */
  predicate Gate(expression: string)
    ensures Gate(expression) ==>
              forall i :: 0 <= i < |expression| ==> !AsciiLetter(expression[i]) && expression[i] != '_'
  {
    assert (forall i :: 0 <= i < |expression| ==> Allowed(expression[i])) ==>
             forall i :: 0 <= i < |expression| ==> !AsciiLetter(expression[i]) && expression[i] != '_' by {
      forall i | 0 <= i < |expression| && Allowed(expression[i]) {
        AllowedIsNoNameChar(expression[i]);
      }
    }
    forall i :: 0 <= i < |expression| ==> Allowed(expression[i])
  }

  /** Nothing that could start or continue a name gets through the gate: no
      ASCII letter, no underscore, and no character outside ASCII except
      whitespace (none of which is a letter); so no identifier, attribute or
      call such as `__import__` reaches the evaluator. */
  lemma GateAdmitsNoName(expression: string)
    requires Gate(expression)
    ensures forall i :: 0 <= i < |expression| ==>
              !AsciiLetter(expression[i]) && expression[i] != '_' &&
              (expression[i] as int < 128 || Text.IsSpace(expression[i]))
  {
    forall i | 0 <= i < |expression|
      ensures expression[i] as int < 128 || Text.IsSpace(expression[i])
    {
      AllowedIsNoNameChar(expression[i]);
    }
  }

  /** How the host's evaluation of an expression ends. */
  datatype Evaluation = Value(x: real) | ZeroDivision | SyntaxFailure | OtherFailure(message: string)

  datatype CalculateError =
    | InvalidCharacters
    | DivisionInExpression
    | InvalidExpression
    | EvaluationFailed(message: string)

  /** `calculate`: the gate, then the evaluator, each exception mapped to its
      own error. */
  function Calculate(expression: string, eval: string -> Evaluation): (r: Result<real, CalculateError>)
    ensures r == Err(InvalidCharacters) <==> !Gate(expression)
    ensures r.Ok? <==> Gate(expression) && eval(expression).Value?
    ensures r.Ok? ==> r.value == eval(expression).x
    ensures r == Err(DivisionInExpression) <==> Gate(expression) && eval(expression) == ZeroDivision
    ensures r == Err(InvalidExpression) <==> Gate(expression) && eval(expression) == SyntaxFailure
    ensures r.Err? && r.error.EvaluationFailed? <==> Gate(expression) && eval(expression).OtherFailure?
  {
    if !Gate(expression) then Err(InvalidCharacters)
    else
      match eval(expression)
      case Value(x) => Ok(x)
      case ZeroDivision => Err(DivisionInExpression)
      case SyntaxFailure => Err(InvalidExpression)
      case OtherFailure(m) => Err(EvaluationFailed(m))
  }

  /** The gate decides before anything is evaluated: a refused expression
      gets the same answer whatever the evaluator would have done. */
  lemma GateBeforeEval(expression: string, eval1: string -> Evaluation, eval2: string -> Evaluation)
    requires !Gate(expression)
    ensures Calculate(expression, eval1) == Calculate(expression, eval2) == Err(InvalidCharacters)
  {
  }

  /** An expression that names a function is refused. */
  lemma ImportRefused(eval: string -> Evaluation)
    ensures Calculate("__import__('os')", eval) == Err(InvalidCharacters)
  {
    assert "__import__('os')"[0] == '_' && !Allowed('_');
  }

  /** The tool's own examples pass the gate. */
  lemma ExamplesPassGate()
    ensures Gate("2 + 3 * 4") && Gate("(2 + 3) * 4") && Gate("10 / 2 + 1")
  {
    assert forall c :: c in "2 + 3 * 4" + "(2 + 3) * 4" + "10 / 2 + 1" ==> c in AllowedChars || c == ' ';
  }
}
