/** The `format_precision` tool: exact, case-sensitive routing over five
    operation names, the guards of rounding, and floor, ceiling, truncation
    and absolute value on exact reals. */
module Precision {
  import opened Wrappers

  /** The keys of the operation table, in source order. */
  const Operations: seq<string> := ["round", "floor", "ceiling", "truncate", "absolute"]

  datatype Operation = Round | Floor | Ceiling | Truncate | Absolute

  /** The table key of each operation. */
  function Name(op: Operation): (s: string)
    ensures s in Operations
  {
    match op
    case Round => "round"
    case Floor => "floor"
    case Ceiling => "ceiling"
    case Truncate => "truncate"
    case Absolute => "absolute"
  }

  /** The membership test on the table's keys: an exact string match. */
  function ParseOperation(s: string): (r: Option<Operation>)
    ensures r.Some? <==> s in Operations
    ensures r.Some? ==> Name(r.value) == s
  {
    if s == "round" then Some(Round)
    else if s == "floor" then Some(Floor)
    else if s == "ceiling" then Some(Ceiling)
    else if s == "truncate" then Some(Truncate)
    else if s == "absolute" then Some(Absolute)
    else None
  }

  /** Every operation is recognised by its own name, and only by it. */
  lemma ParseName(op: Operation, s: string)
    ensures ParseOperation(Name(op)) == Some(op)
    ensures ParseOperation(s) == Some(op) <==> s == Name(op)
  {
  }

  /** `math.floor`: the largest integer not above n. */
  function FloorOf(n: real): (r: int)
    ensures r as real <= n < r as real + 1.0
  {
    n.Floor
  }

  /** `math.ceil`: the smallest integer not below n. */
  function CeilingOf(n: real): (r: int)
    ensures r as real - 1.0 < n <= r as real
  {
    var f := n.Floor;
    if f as real == n then f else f + 1
  }

  /** `math.trunc`: the integer part, dropping the fraction toward zero. */
  function TruncateOf(n: real): (r: int)
    ensures n < 0.0 ==> r == CeilingOf(n)
    ensures AbsoluteOf(r as real) <= AbsoluteOf(n) < AbsoluteOf(r as real) + 1.0
  {
    if n < 0.0 then
      var t := -FloorOf(-n);
      assert t as real - 1.0 < n <= t as real;
      FloorCeilingExtreme(n, t);
      FloorCeilingExtreme(n, CeilingOf(n) - 1);
      t
    else FloorOf(n)
  }

  /** `abs`. */
  function AbsoluteOf(n: real): (r: real)
    ensures r >= 0.0 && (r == n || r == -n)
  {
    if n < 0.0 then -n else n
  }

  /** No integer lies strictly between the floor and n, nor between n and the ceiling. */
  lemma FloorCeilingExtreme(n: real, k: int)
    ensures k as real <= n ==> k <= FloorOf(n)
    ensures n <= k as real ==> CeilingOf(n) <= k
  {
  }

  /** The floor and the ceiling agree exactly on integers and otherwise are
      one apart. */
  lemma FloorCeilingGap(n: real)
    ensures FloorOf(n) == CeilingOf(n) <==> n == FloorOf(n) as real
    ensures FloorOf(n) != CeilingOf(n) ==> CeilingOf(n) == FloorOf(n) + 1
  {
  }

  /** Truncation rounds toward zero: it is the floor of a non-negative number
      and the ceiling of a negative one, and never moves away from zero. */
  lemma TruncateTowardZero(n: real)
    ensures n >= 0.0 ==> TruncateOf(n) == FloorOf(n)
    ensures n < 0.0 ==> TruncateOf(n) == CeilingOf(n)
    ensures AbsoluteOf(TruncateOf(n) as real) <= AbsoluteOf(n) < AbsoluteOf(TruncateOf(n) as real) + 1.0
  {
  }

  datatype PrecisionError = UnknownOperation(operation: string) | MissingPlaces | NegativePlaces

  /** A whole-number result (floor, ceiling, truncate) or a real one (round, absolute). */
  datatype Answer = Whole(n: int) | Fraction(x: real)

  /** `format_precision`: the operation check, the `places` checks for round,
      then the helper; `round` is the host's rounding to a number of places. */
  function FormatPrecision(operation: string, value: real, places: Option<int>,
                           round: (real, nat) -> real): (r: Result<Answer, PrecisionError>)
    ensures r == Err(UnknownOperation(operation)) <==> operation !in Operations
    ensures r == Err(MissingPlaces) <==> operation == "round" && places.None?
    ensures r == Err(NegativePlaces) <==> operation == "round" && places.Some? && places.value < 0
    ensures r.Ok? && operation == "round" ==> r.value == Fraction(round(value, places.value))
    ensures r.Ok? && operation == "floor" ==> r.value.Whole? && r.value.n as real <= value < r.value.n as real + 1.0
    ensures r.Ok? && operation == "ceiling" ==> r.value.Whole? && r.value.n as real - 1.0 < value <= r.value.n as real
    ensures r.Ok? && operation == "truncate" ==>
              r.value.Whole? && r.value.n == (if value >= 0.0 then FloorOf(value) else CeilingOf(value))
    ensures r.Ok? && operation == "absolute" ==>
              r.value.Fraction? && r.value.x >= 0.0 && (r.value.x == value || r.value.x == -value)
    ensures r.Ok? <==> operation in Operations && (operation == "round" ==> places.Some? && places.value >= 0)
  {
    match ParseOperation(operation)
    case None => Err(UnknownOperation(operation))
    case Some(op) =>
      match op
      case Round =>
        if places.None? then Err(MissingPlaces)
        else if places.value < 0 then Err(NegativePlaces)
        else Ok(Fraction(round(value, places.value)))
      case Floor => Ok(Whole(FloorOf(value)))
      case Ceiling => Ok(Whole(CeilingOf(value)))
      case Truncate => TruncateTowardZero(value); Ok(Whole(TruncateOf(value)))
      case Absolute => Ok(Fraction(AbsoluteOf(value)))
  }

  /** The match is case-sensitive: capitalised names are unknown operations. */
  lemma CaseSensitive(value: real, places: Option<int>, round: (real, nat) -> real)
    ensures FormatPrecision("Floor", value, places, round) == Err(UnknownOperation("Floor"))
    ensures FormatPrecision("ROUND", value, places, round) == Err(UnknownOperation("ROUND"))
  {
    assert "Floor" !in Operations && "ROUND" !in Operations by {
      assert "Floor"[0] != "floor"[0] && "ROUND"[0] != "round"[0];
      assert |"Floor"| == 5 && |"ROUND"| == 5 && |"ceiling"| == 7 && |"truncate"| == 8 && |"absolute"| == 8;
    }
  }

  /** Examples: floor, ceiling and truncation of 3.7 and -3.7. */
  lemma TruncateExamples()
    ensures FloorOf(3.7) == 3 && CeilingOf(3.7) == 4 && TruncateOf(3.7) == 3
    ensures FloorOf(-3.7) == -4 && CeilingOf(-3.7) == -3 && TruncateOf(-3.7) == -3
  {
    TruncateTowardZero(3.7);
    TruncateTowardZero(-3.7);
  }
}
