/**
 * Values as they travel in varbinds and as they sit in the JSON state document,
 * and the two Python conversions the agent applies between them: `str(value)`
 * for DisplayString objects and `int(value)` for Integer32 objects.
 */
module Values {
  import opened Wrappers

  /** The syntax of a varbind value. `OtherSyntax` stands for every syntax the
      agent never produces and never accepts for a write (Counter32, IpAddress,
      OBJECT IDENTIFIER, ...). `Null` is what the agent answers for an object
      whose type it does not know. */
  datatype Syntax = OctetString(text: string) | Integer(number: int) | Null | OtherSyntax

  /** A scalar's `"value"` field in the JSON document: a JSON string or a JSON integer. */
  datatype JsonValue = Text(text: string) | Num(number: int)

  predicate IsDigit(c: char) {
    '0' <= c <= '9'
  }

  predicate AllDigits(s: string) {
    forall i :: 0 <= i < |s| ==> IsDigit(s[i])
  }

  function DigitChar(d: nat): (c: char)
    requires d < 10
    ensures IsDigit(c)
  {
    (48 + d) as char
  }

  function DigitValue(c: char): nat
    requires IsDigit(c)
  {
    (c as int) - 48
  }

  /** Decimal digits of a natural number, most significant first, no leading zeros. */
  function Digits(n: nat): (s: string)
    ensures |s| >= 1 && AllDigits(s)
    decreases n
  {
    if n < 10 then [DigitChar(n)] else Digits(n / 10) + [DigitChar(n % 10)]
  }

  /** The number a non-empty run of ASCII digits denotes. */
  function DigitsValue(s: string): nat
    requires AllDigits(s)
    decreases |s|
  {
    if |s| == 0 then 0 else DigitsValue(s[..|s| - 1]) * 10 + DigitValue(s[|s| - 1])
  }

  /** Python's `str` of an integer. */
  function DecimalText(n: int): string {
    if n < 0 then "-" + Digits(-n) else Digits(n)
  }

  /** Python's `int` of a text: an optional sign followed by at least one ASCII
      digit; anything else raises `ValueError`, which is `None` here. */
  function ParseDecimal(s: string): (r: Option<int>)
    ensures r.Some? ==> |s| >= 1
  {
    if |s| >= 1 && (s[0] == '-' || s[0] == '+') then
      var body := s[1..];
      if |body| >= 1 && AllDigits(body) then
        var magnitude: int := DigitsValue(body);
        Some(if s[0] == '-' then -magnitude else magnitude)
      else None
    else if |s| >= 1 && AllDigits(s) then Some(DigitsValue(s))
    else None
  }

  lemma {:induction false} DigitsRoundTrip(n: nat)
    ensures DigitsValue(Digits(n)) == n
    decreases n
  {
    if n >= 10 {
      var d := Digits(n);
      var front := Digits(n / 10);
      assert d == front + [DigitChar(n % 10)];
      assert d[..|d| - 1] == front;
      DigitsRoundTrip(n / 10);
    }
  }

  /** `int(str(n)) == n`: what the agent writes as text it reads back as the same number. */
  lemma ParseDecimalText(n: int)
    ensures ParseDecimal(DecimalText(n)) == Some(n)
  {
    if n < 0 {
      DigitsRoundTrip(-n);
      assert DecimalText(n)[1..] == Digits(-n);
    } else {
      DigitsRoundTrip(n);
    }
  }

  /** Python's `str(value)` on a JSON value. */
  function StrOf(v: JsonValue): (s: string)
    ensures v.Text? ==> s == v.text
    ensures v.Num? ==> ParseDecimal(s) == Some(v.number)
  {
    match v
    case Text(t) => t
    case Num(n) => ParseDecimalText(n); DecimalText(n)
  }

  /** Python's `int(value)` on a JSON value; `None` when it raises. */
  function IntOf(v: JsonValue): Option<int>
  {
    match v
    case Num(n) => Some(n)
    case Text(t) => ParseDecimal(t)
  }
}
