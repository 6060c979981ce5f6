/** Lenient number and date coercion (backend/src/utils/parse.ts).

    `Number(text)` is modelled on decimal literals: optional white space, an
    optional sign, digits with an optional fractional part. Its value is kept
    exact as `mantissa / 10^scale`, so JavaScript's `Math.round` can be stated
    without floating point. `new Date(text)` is host behaviour and is passed in
    as `parseDate`. */
module Parse {
  import opened Wrappers
  import opened Text
  import opened Errors

  /** Milliseconds since the epoch; JavaScript compares dates by this value. */
  type Date = int

  /** The host's `new Date(text)`: `None` for an Invalid Date. */
  type DateParser = string -> Option<Date>

  /** The result of `Number(text)`: not-a-number, or `mantissa / 10^scale`. */
  datatype Numeric = NaN | Num(mantissa: int, scale: nat)

  function Pow10(k: nat): (p: nat)
    ensures p >= 1
  {
    if k == 0 then 1 else 10 * Pow10(k - 1)
  }

  /** Position of the first '.' in `s`, or `|s|` when there is none. */
  function DotIndex(s: string): (i: nat)
    ensures i <= |s|
    ensures forall k :: 0 <= k < i ==> s[k] != '.'
    ensures i < |s| ==> s[i] == '.'
  {
    if |s| == 0 || s[0] == '.' then 0 else 1 + DotIndex(s[1..])
  }

  /** An unsigned decimal literal: digits, optionally a '.' and more digits,
      with at least one digit in all. */
  function UnsignedDecimal(body: string): (n: Numeric)
    ensures n.Num? ==> n.mantissa >= 0 && HasDigit(body)
  {
    var i := DotIndex(body);
    var whole := body[..i];
    var frac := if i < |body| then body[i + 1..] else "";
    if AllDigits(whole) && AllDigits(frac) && |whole| + |frac| > 0 then
      assert AllDigits(whole + frac);
      assert |whole| > 0 ==> body[0] == whole[0];
      assert |whole| == 0 ==> body[i + 1] == frac[0];
      Num(DigitsValue(whole + frac), |frac|)
    else
      NaN
  }

  function Negate(n: Numeric): Numeric {
    match n
    case NaN => NaN
    case Num(m, k) => Num(-m, k)
  }

  /** `Number(text)` for decimal text: blank text is 0. */
  function NumberValue(s: string): (n: Numeric)
    ensures AllSpace(s) ==> n == Num(0, 0)
    ensures n.Num? ==> AllSpace(s) || HasDigit(s)
  {
    var t := Trim(s);
    TrimKeepsDigits(s);
    if t == "" then Num(0, 0)
    else if t[0] == '-' then
      assert HasDigit(t[1..]) ==> HasDigit(t);
      Negate(UnsignedDecimal(t[1..]))
    else if t[0] == '+' then
      assert HasDigit(t[1..]) ==> HasDigit(t);
      UnsignedDecimal(t[1..])
    else UnsignedDecimal(t)
  }

  /** JavaScript's `Math.round` on `m / 10^k`: the integer `r` with
      `r - 1/2 <= m / 10^k < r + 1/2`, i.e. halves round up. */
  function RoundHalfUp(m: int, k: nat): (r: int)
    ensures 2 * Pow10(k) * r - Pow10(k) <= 2 * m < 2 * Pow10(k) * r + Pow10(k)
  {
    var p := Pow10(k);
    var q := (2 * m + p) / (2 * p);
    DivisionFacts(2 * m + p, 2 * p);
    q
  }

  lemma DivisionFacts(a: int, d: int)
    requires d > 0
    ensures d * (a / d) <= a < d * (a / d) + d
  {
  }

  /** `toInt(value, fallback)`: absent or non-numeric text gives `fallback`,
      blank text gives 0 (it converts to 0 before the NaN test), and numeric
      text gives the nearest integer, halves rounding up. */
  function ToInt(value: Option<string>, fallback: int): (r: int)
    ensures value.None? ==> r == fallback
    ensures value.Some? && NumberValue(value.value).NaN? ==> r == fallback
    ensures value.Some? && NumberValue(value.value).Num? ==>
      var n := NumberValue(value.value);
      2 * Pow10(n.scale) * r - Pow10(n.scale) <= 2 * n.mantissa < 2 * Pow10(n.scale) * r + Pow10(n.scale)
  {
    match value
    case None => fallback
    case Some(text) =>
      match NumberValue(text)
      case NaN => fallback
      case Num(m, k) => RoundHalfUp(m, k)
  }

  /** Blank text is 0, never the fallback. */
  lemma ToIntOfBlank(s: string, fallback: int)
    requires AllSpace(s)
    ensures ToInt(Some(s), fallback) == 0
  {
  }

  /** Text without a digit that is not blank is not a number. */
  lemma ToIntOfNonNumeric(s: string, fallback: int)
    requires !AllSpace(s) && !HasDigit(s)
    ensures ToInt(Some(s), fallback) == fallback
  {
  }

  /** An unsigned digit run is a number with no fractional digits. */
  lemma UnsignedDigits(s: string)
    requires |s| > 0 && AllDigits(s)
    ensures UnsignedDecimal(s) == Num(DigitsValue(s), 0)
  {
    assert DotIndex(s) == |s| by {
      assert forall k :: 0 <= k < |s| ==> s[k] != '.';
    }
    assert s[..|s|] + "" == s;
  }

  /** `Number` reads a digit run as its decimal value. */
  lemma NumberOfDigits(d: string)
    requires |d| > 0 && AllDigits(d)
    ensures NumberValue(d) == Num(DigitsValue(d), 0)
  {
    assert !IsSpace(d[0]) && !IsSpace(d[|d| - 1]);
    TrimOfTrimmed(d);
    UnsignedDigits(d);
  }

  /** `Number` reads a minus sign and a digit run as the negated value. */
  lemma NumberOfNegatedDigits(d: string)
    requires |d| > 0 && AllDigits(d)
    ensures NumberValue("-" + d) == Num(-(DigitsValue(d) as int), 0)
  {
    var s := "-" + d;
    assert IsDigit(d[|d| - 1]);
    assert s[|s| - 1] == d[|d| - 1];
    TrimOfTrimmed(s);
    assert Trim(s) == s && s[0] == '-' && s[1..] == d;
    UnsignedDigits(d);
    assert NumberValue(s) == Negate(UnsignedDecimal(d));
  }

  /** A digit run reads as its decimal value. */
  lemma ToIntOfDigits(s: string, fallback: int)
    requires |s| > 0 && AllDigits(s)
    ensures ToInt(Some(s), fallback) == DigitsValue(s)
  {
    NumberOfDigits(s);
    RoundWhole(DigitsValue(s));
  }

  /** Rounding a whole number leaves it alone. */
  lemma RoundWhole(m: int)
    ensures RoundHalfUp(m, 0) == m
  {
    assert Pow10(0) == 1;
    var r := RoundHalfUp(m, 0);
    assert 2 * r - 1 <= 2 * m < 2 * r + 1;
  }

  /** `Number` reads the decimal rendering of any integer back exactly. */
  lemma NumberOfRendering(i: int)
    ensures NumberValue(IntToString(i)) == Num(i, 0)
  {
    if i >= 0 {
      NatToStringRoundTrip(i);
      NumberOfDigits(NatToString(i));
    } else {
      NatToStringRoundTrip(-i);
      NumberOfNegatedDigits(NatToString(-i));
    }
  }

  /** Reading back the decimal rendering of any integer gives the integer. */
  lemma ToIntRoundTrip(i: int, fallback: int)
    ensures ToInt(Some(IntToString(i)), fallback) == i
  {
    NumberOfRendering(i);
  }

  /** `toDate(value)`: the trimmed text through `new Date`; raises on an
      Invalid Date, and on an absent value (calling `trim` on `undefined`). */
  function ToDate(value: Option<string>, parseDate: DateParser): (r: Result<Date, SyncError>)
    ensures value.None? ==> r == Failure(DateMissing)
    ensures r.Failure? && value.Some? ==> r.error == InvalidDate(value.value)
    ensures r.Success? ==> value.Some? && parseDate(Trim(value.value)) == Some(r.value)
  {
    match value
    case None => Failure(DateMissing)
    case Some(text) =>
      match parseDate(Trim(text))
      case None => Failure(InvalidDate(text))
      case Some(d) => Success(d)
  }

  /** `toDateOptional(value)`: never raises; absent, empty, blank or
      unreadable text gives `None`, anything else agrees with `ToDate`. */
  function ToDateOptional(value: Option<string>, parseDate: DateParser): (r: Option<Date>)
    ensures value.None? || AllSpace(value.value) ==> r.None?
    ensures value.Some? && !AllSpace(value.value) ==>
      (r.Some? <==> ToDate(value, parseDate).Success?) &&
      (r.Some? ==> r.value == ToDate(value, parseDate).value)
  {
    match value
    case None => None
    case Some(text) =>
      if text == "" then None
      else
        var trimmed := Trim(text);
        if trimmed == "" then None
        else parseDate(trimmed)
  }
}
