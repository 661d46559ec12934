/** The integer utilities of the computer-science tool: base conversion
    between bases 2, 8, 10 and 16, bitwise AND/OR/XOR, 8-bit NOT, shifts and
    ASCII code conversion, each behind the tool's parameter guards. */
module ComputerScience {
  import opened Wrappers
  import opened IntArith

  datatype CsError =
    | MissingParameter
    | UnsupportedBase
    | NegativeValue
    | InvalidBinaryDigits
    | InvalidOctalDigits
    | ValueOutOfRange
    | BitPositionOutOfRange
    | NotOneCharacter
    | NotAscii(code: int)

  // ------------------------------------------------------------ digit lists

  /** The digits of v in base b, most significant first; 0 has the single digit 0. */
  function Digits(v: nat, b: nat): (ds: seq<nat>)
    requires b >= 2
    ensures |ds| >= 1
    ensures forall i :: 0 <= i < |ds| ==> ds[i] < b
    ensures |ds| > 1 ==> ds[0] != 0
  {
    if v < b then [v]
    else
      DivStep(v, b);
      Digits(v / b, b) + [v % b]
  }

  /** The number a digit list denotes in base b. */
  function ValueOf(ds: seq<nat>, b: nat): nat
  {
    if |ds| == 0 then 0 else ValueOf(ds[..|ds| - 1], b) * b + ds[|ds| - 1]
  }

  /** Writing v in base b and reading the digits back gives v. */
  lemma {:induction false} ValueOfDigits(v: nat, b: nat)
    requires b >= 2
    ensures ValueOf(Digits(v, b), b) == v
  {
    if v >= b {
      var q, r := v / b, v % b;
      DivStep(v, b);
      DigitsStep(v, b);
      ValueOfSnoc(Digits(q, b), r, b);
      ValueOfDigits(q, b);
      DivBounds(v, b);
    } else {
      ValueOfSingle(v, b);
    }
  }

  /** Above one digit, the digits of v are those of v / b followed by v % b. */
  lemma DigitsStep(v: nat, b: nat)
    requires b >= 2 && v >= b
    ensures Digits(v, b) == Digits(v / b, b) + [v % b]
  {
  }

  /** Appending a digit multiplies the value by the base and adds the digit. */
  lemma ValueOfSnoc(ds: seq<nat>, d: nat, b: nat)
    ensures ValueOf(ds + [d], b) == ValueOf(ds, b) * b + d
  {
    assert (ds + [d])[..|ds|] == ds;
  }

  /** A one-digit list denotes its digit. */
  lemma ValueOfSingle(d: nat, b: nat)
    ensures ValueOf([d], b) == d
  {
    assert [d][..0] == [];
  }

  /** Reading a list of base-b digits without a leading zero and writing the
      value back in base b gives the same list. */
  lemma {:induction false} DigitsOfValue(ds: seq<nat>, b: nat)
    requires b >= 2 && |ds| >= 1
    requires forall i :: 0 <= i < |ds| ==> ds[i] < b
    requires |ds| > 1 ==> ds[0] != 0
    ensures Digits(ValueOf(ds, b), b) == ds
  {
    if |ds| == 1 {
      ValueOfSingle(ds[0], b);
    } else {
      var init := ds[..|ds| - 1];
      DigitsOfValue(init, b);
      LeadingDigitPositive(init, b);
      var v := ValueOf(ds, b);
      var w := ValueOf(init, b);
      assert v == w * b + ds[|ds| - 1];
      DivUnique(w, b, ds[|ds| - 1]);
      assert v >= b by { MulSign(b, w); }
      assert ds == init + [ds[|ds| - 1]];
    }
  }

  /** A digit list with a non-zero first digit denotes a positive number. */
  lemma {:induction false} LeadingDigitPositive(ds: seq<nat>, b: nat)
    requires b >= 2 && |ds| >= 1 && ds[0] != 0
    ensures ValueOf(ds, b) >= 1
  {
    if |ds| > 1 {
      LeadingDigitPositive(ds[..|ds| - 1], b);
    }
  }

  /** The character of a digit below 16: '0'..'9', then upper-case 'A'..'F'. */
  function DigitChar(d: nat): char
    requires d < 16
  {
    if d < 10 then ('0' as int + d) as char else ('A' as int + d - 10) as char
  }

  /** The digit a character '0'..'9' or 'A'..'F' stands for. */
  function CharDigit(c: char): nat
  {
    if '0' <= c <= '9' then (c as int - '0' as int) as nat
    else if 'A' <= c <= 'F' then (c as int - 'A' as int + 10) as nat
    else 0
  }

  /** The digit characters in order of value; a base-b numeral uses the first b. */
  const DigitAlphabet: string := "0123456789ABCDEF"

  /** Digit d is spelled by the character at position d of the alphabet. */
  lemma DigitCharSpelled(d: nat)
    requires d < 16
    ensures DigitChar(d) == DigitAlphabet[d]
  {
    if d < 10 {
      assert DigitAlphabet[..10] == "0123456789";
    } else {
      assert DigitAlphabet[10..] == "ABCDEF";
    }
  }

  /** v written in base b without a prefix, hex in upper case: Python's
      `str(v)`, `bin(v)[2:]`, `oct(v)[2:]` and `hex(v)[2:].upper()`. */
  function DigitString(v: nat, b: nat): (s: string)
    requires b in {2, 8, 10, 16}
    ensures |s| == |Digits(v, b)|
    ensures forall i :: 0 <= i < |s| ==> CharDigit(s[i]) == Digits(v, b)[i]
    ensures forall i :: 0 <= i < |s| ==> s[i] in DigitAlphabet[..b]
  {
    var ds := Digits(v, b);
    forall i | 0 <= i < |ds|
      ensures DigitChar(ds[i]) in DigitAlphabet[..b]
    {
      DigitCharSpelled(ds[i]);
      assert DigitAlphabet[..b][ds[i]] == DigitAlphabet[ds[i]];
    }
    seq(|ds|, i requires 0 <= i < |ds| => DigitChar(ds[i]))
  }

  /** The number a string of digit characters denotes in base b. */
  function ReadDigits(s: string, b: nat): nat
  {
    ValueOf(seq(|s|, i requires 0 <= i < |s| => CharDigit(s[i])), b)
  }

  /** The output string read back in its base is the converted value. */
  lemma DigitStringRoundTrip(v: nat, b: nat)
    requires b in {2, 8, 10, 16}
    ensures ReadDigits(DigitString(v, b), b) == v
  {
    var s := DigitString(v, b);
    assert seq(|s|, i requires 0 <= i < |s| => CharDigit(s[i])) == Digits(v, b);
    ValueOfDigits(v, b);
  }

  // -------------------------------------------------------- base conversion

  predicate SupportedBase(b: int)
  {
    b == 2 || b == 8 || b == 10 || b == 16
  }

  /** Every decimal digit of v is below bound. */
  predicate DigitsBelow(v: nat, bound: nat)
  {
    forall i :: 0 <= i < |Digits(v, 10)| ==> Digits(v, 10)[i] < bound
  }

  datatype Conversion = Conversion(decimal: nat, output: string)

  /** The `base_conversion` operation: missing parameters, then an
      unsupported base, then a negative value are errors; a base-2 or base-8
      input must spell only binary or octal digits in decimal; the decimal
      digits of the value are read in from_base (base 16 reads them as hex
      digits) and the result is written in to_base. */
  function BaseConversion(value: Option<int>, fromBase: Option<int>, toBase: Option<int>)
    : (r: Result<Conversion, CsError>)
    ensures value.None? || fromBase.None? || toBase.None? <==> r == Err(MissingParameter)
    ensures (value.Some? && fromBase.Some? && toBase.Some? &&
             !(SupportedBase(fromBase.value) && SupportedBase(toBase.value))) ==> r == Err(UnsupportedBase)
    ensures (value.Some? && fromBase.Some? && toBase.Some? &&
             SupportedBase(fromBase.value) && SupportedBase(toBase.value) && value.value < 0) ==> r == Err(NegativeValue)
    ensures (value.Some? && fromBase.Some? && toBase.Some? &&
             SupportedBase(fromBase.value) && SupportedBase(toBase.value) && value.value >= 0 &&
             fromBase.value == 2 && !DigitsBelow(value.value, 2)) ==> r == Err(InvalidBinaryDigits)
    ensures (value.Some? && fromBase.Some? && toBase.Some? &&
             SupportedBase(fromBase.value) && SupportedBase(toBase.value) && value.value >= 0 &&
             fromBase.value == 8 && !DigitsBelow(value.value, 8)) ==> r == Err(InvalidOctalDigits)
    ensures r.Ok? <==>
              value.Some? && fromBase.Some? && toBase.Some? &&
              SupportedBase(fromBase.value) && SupportedBase(toBase.value) &&
              value.value >= 0 &&
              (fromBase.value == 2 ==> DigitsBelow(value.value, 2)) &&
              (fromBase.value == 8 ==> DigitsBelow(value.value, 8))
    ensures r.Ok? ==> r.value.decimal == ValueOf(Digits(value.value, 10), fromBase.value)
    ensures r.Ok? ==> ReadDigits(r.value.output, toBase.value) == r.value.decimal
  {
    if value.None? || fromBase.None? || toBase.None? then Err(MissingParameter)
    else
      var v, from, to := value.value, fromBase.value, toBase.value;
      if !SupportedBase(from) || !SupportedBase(to) then Err(UnsupportedBase)
      else if v < 0 then Err(NegativeValue)
      else if from == 2 && !DigitsBelow(v, 2) then Err(InvalidBinaryDigits)
      else if from == 8 && !DigitsBelow(v, 8) then Err(InvalidOctalDigits)
      else
        var decimal := ValueOf(Digits(v, 10), from);
        DigitStringRoundTrip(decimal, to);
        Ok(Conversion(decimal, DigitString(decimal, to)))
  }

  /** From base 10 the decimal value is the input itself, and converting it
      to base b and back to base 10 returns the input. */
  lemma DecimalRoundTrip(v: int, b: int)
    requires v >= 0 && SupportedBase(b)
    ensures BaseConversion(Some(v), Some(10), Some(b)).Ok?
    ensures BaseConversion(Some(v), Some(10), Some(b)).value.decimal == v
  {
    ValueOfDigits(v, 10);
  }

  /** Converting a value from base 10 to base b and then the digits back from
      base b to base 10 recovers the value, for b = 2 and b = 8 (whose digit
      strings are also decimal numerals). */
  lemma BinaryOctalRoundTrip(v: nat, b: int)
    requires b == 2 || b == 8
    ensures var ds := Digits(v, b);
            var spelled := ValueOf(ds, 10);
            BaseConversion(Some(spelled), Some(b), Some(10)) == Ok(Conversion(v, DigitString(v, 10)))
  {
    var ds := Digits(v, b);
    var spelled := ValueOf(ds, 10);
    assert Digits(spelled, 10) == ds by { DigitsOfValue(ds, 10); }
    assert DigitsBelow(spelled, b);
    assert ValueOf(ds, b) == v by { ValueOfDigits(v, b); }
    AcceptedConversion(spelled, b, 10);
  }

  /** Past the guards, the conversion reads the decimal digits in from_base
      and writes the value in to_base. */
  lemma AcceptedConversion(v: nat, from: int, to: int)
    requires SupportedBase(from) && SupportedBase(to)
    requires from == 2 ==> DigitsBelow(v, 2)
    requires from == 8 ==> DigitsBelow(v, 8)
    ensures var decimal := ValueOf(Digits(v, 10), from);
            BaseConversion(Some(v), Some(from), Some(to)) == Ok(Conversion(decimal, DigitString(decimal, to)))
  {
  }

  // ----------------------------------------------------------------- bitwise

  /** Bitwise AND of non-negative integers, bit by bit from the lowest. */
  function And(a: nat, b: nat): nat
  {
    if a == 0 || b == 0 then 0
    else 2 * And(a / 2, b / 2) + (if a % 2 == 1 && b % 2 == 1 then 1 else 0)
  }

  function Or(a: nat, b: nat): nat
  {
    if a == 0 then b
    else if b == 0 then a
    else 2 * Or(a / 2, b / 2) + (if a % 2 == 1 || b % 2 == 1 then 1 else 0)
  }

  function Xor(a: nat, b: nat): nat
  {
    if a == 0 then b
    else if b == 0 then a
    else 2 * Xor(a / 2, b / 2) + (if a % 2 != b % 2 then 1 else 0)
  }

  /** OR splits into the bits both have and the bits exactly one has. */
  lemma {:induction false} OrIsAndPlusXor(a: nat, b: nat)
    ensures Or(a, b) == And(a, b) + Xor(a, b)
  {
    if a != 0 && b != 0 {
      OrIsAndPlusXor(a / 2, b / 2);
    }
  }

  /** XOR with the same operand twice gives the first operand back. */
  lemma {:induction false} XorSelfInverse(a: nat, b: nat)
    ensures Xor(Xor(a, b), b) == a
  {
    if a != 0 && b != 0 {
      XorSelfInverse(a / 2, b / 2);
      var x := Xor(a, b);
      assert x / 2 == Xor(a / 2, b / 2) && x % 2 == (if a % 2 != b % 2 then 1 else 0);
      if x == 0 {
        XorZeroMeansEqual(a, b);
      }
    } else if a == 0 {
      XorSelf(b);
    }
  }

  lemma {:induction false} XorSelf(a: nat)
    ensures Xor(a, a) == 0
  {
    if a != 0 {
      XorSelf(a / 2);
    }
  }

  lemma {:induction false} XorZeroMeansEqual(a: nat, b: nat)
    ensures Xor(a, b) == 0 ==> a == b
  {
    if a != 0 && b != 0 {
      XorZeroMeansEqual(a / 2, b / 2);
    }
  }

  /** AND never exceeds either operand; OR is never below either. */
  lemma {:induction false} AndOrBounds(a: nat, b: nat)
    ensures And(a, b) <= a && And(a, b) <= b
    ensures a <= Or(a, b) && b <= Or(a, b)
  {
    if a != 0 && b != 0 {
      AndOrBounds(a / 2, b / 2);
    }
  }

  datatype BitwiseOp = AndOp | OrOp | XorOp

  /** `bitwise_and`, `bitwise_or`, `bitwise_xor`: both operands are
      required, and a negative operand is an error. */
  function Bitwise(op: BitwiseOp, operand1: Option<int>, operand2: Option<int>): (r: Result<nat, CsError>)
    ensures operand1.None? || operand2.None? <==> r == Err(MissingParameter)
    ensures r.Ok? <==> operand1.Some? && operand2.Some? && operand1.value >= 0 && operand2.value >= 0
    ensures r.Ok? && op == AndOp ==> r.value == And(operand1.value, operand2.value)
    ensures r.Ok? && op == OrOp ==> r.value == Or(operand1.value, operand2.value)
    ensures r.Ok? && op == XorOp ==> r.value == Xor(operand1.value, operand2.value)
    ensures r.Ok? && op == AndOp ==> r.value <= operand1.value && r.value <= operand2.value
    ensures r.Ok? && op == OrOp ==> r.value >= operand1.value && r.value >= operand2.value
    ensures r.Ok? && op == XorOp ==> Xor(r.value, operand2.value) == operand1.value
  {
    if operand1.None? || operand2.None? then Err(MissingParameter)
    else if operand1.value < 0 || operand2.value < 0 then Err(NegativeValue)
    else
      var a, b := operand1.value, operand2.value;
      AndOrBounds(a, b);
      XorSelfInverse(a, b);
      match op
      case AndOp => Ok(And(a, b))
      case OrOp => Ok(Or(a, b))
      case XorOp => Ok(Xor(a, b))
  }

  /** `(~v) & 0xFF`: Python's `~v` is -v-1, and masking with 0xFF takes the
      residue modulo 256. */
  function Not8(v: int): int
  {
    (-v - 1) % 256
  }

  /** On 0..255 the masked complement is 255 - v. */
  lemma Not8OnByte(v: int)
    requires 0 <= v <= 255
    ensures Not8(v) == 255 - v
  {
    DivUnique(-1, 256, 255 - v);
    assert -1 * 256 + (255 - v) == -v - 1;
  }

  /** `bitwise_not`: the value is required and must lie in 0..255. */
  function BitwiseNot(value: Option<int>): (r: Result<int, CsError>)
    ensures value.None? <==> r == Err(MissingParameter)
    ensures r.Ok? <==> value.Some? && 0 <= value.value <= 255
    ensures r.Ok? ==> r.value == 255 - value.value
    ensures r.Ok? ==> r.value == Xor(value.value, 255)
  {
    if value.None? then Err(MissingParameter)
    else if value.value < 0 || value.value > 255 then Err(ValueOutOfRange)
    else
      XorMask8(value.value);
      Not8OnByte(value.value);
      Ok(Not8(value.value))
  }

  /** XOR with 255 flips the low eight bits. */
  lemma XorMask8(v: nat)
    requires v <= 255
    ensures Xor(v, 255) == 255 - v
  {
    XorAllOnes(v, 8);
  }

  function Pow2(k: nat): (p: nat)
    ensures p >= 1
  {
    if k == 0 then 1 else 2 * Pow2(k - 1)
  }

  /** XOR with k one-bits complements a k-bit number. */
  lemma {:induction false} XorAllOnes(v: nat, k: nat)
    requires v < Pow2(k)
    ensures Xor(v, Pow2(k) - 1) == Pow2(k) - 1 - v
  {
    if k > 0 && v != 0 {
      XorAllOnes(v / 2, k - 1);
    }
  }

  /** NOT applied twice returns the value. */
  lemma NotInvolution(v: int)
    requires 0 <= v <= 255
    ensures BitwiseNot(Some(BitwiseNot(Some(v)).value)) == Ok(v)
  {
    var w := BitwiseNot(Some(v)).value;
    assert w == 255 - v;
    assert BitwiseNot(Some(w)).value == 255 - w;
  }

  // ------------------------------------------------------------------ shifts

  /** The largest shift the shift operations accept. */
  const MaxShift := 32

  /** `bit_shift_left`: the value is required and non-negative, the position
      in 0..32; the result is value * 2^position. */
  function ShiftLeft(value: Option<int>, position: Option<int>): (r: Result<nat, CsError>)
    ensures value.None? || position.None? <==> r == Err(MissingParameter)
    ensures r.Ok? <==> value.Some? && position.Some? && value.value >= 0 && 0 <= position.value <= MaxShift
    ensures r.Ok? ==> r.value == value.value * Pow2(position.value)
  {
    if value.None? || position.None? then Err(MissingParameter)
    else if value.value < 0 then Err(NegativeValue)
    else if position.value < 0 || position.value > MaxShift then Err(BitPositionOutOfRange)
    else Ok(value.value * Pow2(position.value))
  }

  /** `bit_shift_right`: the same guards; the result is value div 2^position. */
  function ShiftRight(value: Option<int>, position: Option<int>): (r: Result<nat, CsError>)
    ensures value.None? || position.None? <==> r == Err(MissingParameter)
    ensures r.Ok? <==> value.Some? && position.Some? && value.value >= 0 && 0 <= position.value <= MaxShift
    ensures r.Ok? ==> r.value * Pow2(position.value) <= value.value < r.value * Pow2(position.value) + Pow2(position.value)
  {
    if value.None? || position.None? then Err(MissingParameter)
    else if value.value < 0 then Err(NegativeValue)
    else if position.value < 0 || position.value > MaxShift then Err(BitPositionOutOfRange)
    else
      var p := Pow2(position.value);
      DivBounds(value.value, p);
      Ok(value.value / p)
  }

  /** Shifting left and then right by the same position gives the value back. */
  lemma ShiftRoundTrip(v: int, k: int)
    requires v >= 0 && 0 <= k <= MaxShift
    ensures ShiftRight(Some(ShiftLeft(Some(v), Some(k)).value), Some(k)) == Ok(v)
  {
    var p := Pow2(k);
    assert ShiftLeft(Some(v), Some(k)) == Ok(v * p);
    DivUnique(v, p, 0);
  }

  // ------------------------------------------------------------------- ASCII

  /** `ascii_to_char`: the value is required and must lie in 0..127. */
  function AsciiToChar(value: Option<int>): (r: Result<char, CsError>)
    ensures value.None? <==> r == Err(MissingParameter)
    ensures r.Ok? <==> value.Some? && 0 <= value.value <= 127
    ensures r.Ok? ==> r.value as int == value.value
  {
    if value.None? then Err(MissingParameter)
    else if value.value < 0 || value.value > 127 then Err(ValueOutOfRange)
    else Ok(value.value as char)
  }

  /** `char_to_ascii`: the text is required, must be exactly one character,
      and that character's code must be at most 127. */
  function CharToAscii(text: Option<string>): (r: Result<int, CsError>)
    ensures text.None? <==> r == Err(MissingParameter)
    ensures text.Some? && |text.value| != 1 ==> r == Err(NotOneCharacter)
    ensures r.Ok? <==> text.Some? && |text.value| == 1 && text.value[0] as int <= 127
    ensures r.Ok? ==> 0 <= r.value <= 127 && r.value == text.value[0] as int
  {
    if text.None? then Err(MissingParameter)
    else if |text.value| != 1 then Err(NotOneCharacter)
    else if text.value[0] as int > 127 then Err(NotAscii(text.value[0] as int))
    else Ok(text.value[0] as int)
  }

  /** The two ASCII conversions are inverse to each other on 0..127. */
  lemma AsciiRoundTrips(v: int, c: char)
    ensures 0 <= v <= 127 ==> CharToAscii(Some([AsciiToChar(Some(v)).value])) == Ok(v)
    ensures c as int <= 127 ==> AsciiToChar(Some(CharToAscii(Some([c])).value)) == Ok(c)
  {
  }
}
