/**
  How the cropper reads its numeric text fields: JavaScript's `Number(text)`
  on the decimal-integer subset of its grammar, `parseOptionalNumber`, and the
  `Number(text) || 1` reading used when an image is loaded.
 */
module NumberInput {
  import opened Geometry
  import opened Optional
  import opened Decimal
  import opened Trimming

  /** A JavaScript number as far as the cropper can observe it. */
  datatype JsNumber = Finite(value: int) | PosInfinity | NegInfinity | NaN

  /** ECMAScript WhiteSpace and LineTerminator code points (what `trim` removes). */
  predicate IsJsSpace(c: char) {
    || c == '\t' || c == '\n' || c == '\U{000B}' || c == '\U{000C}' || c == '\r'
    || c == ' ' || c == '\U{00A0}' || c == '\U{1680}'
    || ('\U{2000}' <= c <= '\U{200A}')
    || c == '\U{2028}' || c == '\U{2029}' || c == '\U{202F}' || c == '\U{205F}'
    || c == '\U{3000}' || c == '\U{FEFF}'
  }

  /** `text.trim()`. */
  function JsTrim(text: string): (r: string)
    ensures Trimmed(r, IsJsSpace)
  {
    Trim(text, IsJsSpace)
  }

  /** `[+-]?digits` with at least one digit. */
  predicate IsSignedDigits(t: string) {
    || (|t| >= 1 && AllDigits(t))
    || (|t| >= 2 && (t[0] == '+' || t[0] == '-') && AllDigits(t[1..]))
  }

  function SignedDigitsValue(t: string): int
    requires IsSignedDigits(t)
  {
    if AllDigits(t) then DigitsValue(t)
    else if t[0] == '-' then -(DigitsValue(t[1..]) as int)
    else DigitsValue(t[1..])
  }

  /**
    `Number(text)`: blank text is 0, a signed decimal integer is its value,
    `Infinity` with an optional sign is infinite, anything else is NaN.
   */
  function ToNumber(text: string): (n: JsNumber)
    ensures AllSpace(text, IsJsSpace) ==> n == Finite(0)
    ensures IsSignedDigits(JsTrim(text)) ==> n == Finite(SignedDigitsValue(JsTrim(text)))
    ensures n.Finite? ==> AllSpace(text, IsJsSpace) || IsSignedDigits(JsTrim(text))
    ensures n == PosInfinity <==> JsTrim(text) == "Infinity" || JsTrim(text) == "+Infinity"
    ensures n == NegInfinity <==> JsTrim(text) == "-Infinity"
  {
    TrimEmptyIff(text, IsJsSpace);
    var t := JsTrim(text);
    if t == "" then Finite(0)
    else if t == "Infinity" || t == "+Infinity" then PosInfinity
    else if t == "-Infinity" then NegInfinity
    else if IsSignedDigits(t) then Finite(SignedDigitsValue(t))
    else NaN
  }

  /**
    `parseOptionalNumber(text)`: `None` (the JavaScript `null`) for blank text
    and for text that is not a finite number; the number otherwise.
   */
  function ParseOptionalNumber(text: string): (r: Option<int>)
    ensures AllSpace(text, IsJsSpace) ==> r == None
    ensures r.Some? ==> ToNumber(text) == Finite(r.value)
    ensures !AllSpace(text, IsJsSpace) && ToNumber(text).Finite? ==> r == Some(ToNumber(text).value)
  {
    TrimEmptyIff(text, IsJsSpace);
    if JsTrim(text) == "" then None
    else match ToNumber(text)
      case Finite(n) => Some(n)
      case _ => None
  }

  /** Text that is neither blank nor a signed decimal integer (`"abc"`, `"12px"`) leaves a field unset. */
  lemma NonNumericIsUnset(text: string)
    requires !IsSignedDigits(JsTrim(text))
    ensures ParseOptionalNumber(text) == None
  {
  }

  /** An integer's text carries no surrounding space. */
  lemma IntToStringTrimmed(n: int)
    ensures JsTrim(IntToString(n)) == IntToString(n)
  {
    var s := IntToString(n);
    assert IsDigit(s[|s| - 1]) by {
      if n < 0 { assert s[|s| - 1] == s[1..][|s| - 2]; }
    }
    TrimOfTrimmed(s, IsJsSpace);
  }

  /** An integer's text denotes that integer. */
  lemma SignedDigitsOfIntToString(n: int)
    ensures IsSignedDigits(IntToString(n))
    ensures SignedDigitsValue(IntToString(n)) == n
  {
    var s := IntToString(n);
    if n >= 0 {
      DigitsRoundTrip(n);
    } else {
      assert !IsDigit(s[0]);
      assert s[1..] == NatToDigits(-n);
      DigitsRoundTrip(-n);
    }
  }

  /** An integer's own text is read back as that integer. */
  lemma ParseIntToString(n: int)
    ensures ToNumber(IntToString(n)) == Finite(n)
    ensures ParseOptionalNumber(IntToString(n)) == Some(n)
  {
    IntToStringTrimmed(n);
    SignedDigitsOfIntToString(n);
    assert !AllSpace(IntToString(n), IsJsSpace) by {
      assert !IsJsSpace(IntToString(n)[0]);
    }
  }

  /**
    The size `Number(text) || 1` asks for, as an integer `d` whose clamp into
    `[1, bound]` equals JavaScript's `clamp(Number(text) || 1, 1, bound)`:
    zero and NaN are falsy and become 1, +Infinity clamps to the bound and
    -Infinity to the lower end.
   */
  function RequestedSize(text: string, bound: int): (d: int)
    ensures ToNumber(text) == Finite(0) || ToNumber(text) == NaN ==> d == 1
    ensures ToNumber(text).Finite? && ToNumber(text).value != 0 ==> d == ToNumber(text).value
    ensures ToNumber(text) == PosInfinity ==> Clamp(d, 1, bound) == bound
    ensures ToNumber(text) == NegInfinity ==> d == 1
  {
    match ToNumber(text)
    case Finite(n) => if n == 0 then 1 else n
    case NaN => 1
    case PosInfinity => bound
    case NegInfinity => 1
  }
}
