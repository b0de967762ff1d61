/** JavaScript primitive values as the storefront code meets them: package ids,
    category ids, names and category strings read from JSON. */
module JsValues {

  /** A JavaScript primitive. Numbers are modelled as integers. */
  datatype Scalar = Undefined | Null | Bool(b: bool) | Num(n: int) | Str(s: string)

  /** JavaScript truthiness: `undefined`, `null`, `false`, `0` and `""` are falsy. */
  predicate Truthy(v: Scalar) {
    match v
    case Undefined => false
    case Null => false
    case Bool(b) => b
    case Num(n) => n != 0
    case Str(s) => s != ""
  }

  predicate IsDigit(c: char) {
    '0' <= c <= '9'
  }

  function DigitChar(d: nat): (c: char)
    requires d < 10
    ensures IsDigit(c) && c as int - '0' as int == d
  {
    ('0' as int + d) as char
  }

  /** Decimal digits of a natural number, most significant first, without leading zeros. */
  function NatDigits(n: nat): (s: string)
    ensures |s| > 0
    ensures forall i :: 0 <= i < |s| ==> IsDigit(s[i])
    decreases n
  {
    if n < 10 then [DigitChar(n)] else NatDigits(n / 10) + [DigitChar(n % 10)]
  }

  /** The value a string of decimal digits denotes. */
  function DigitsValue(s: string): nat
    requires forall i :: 0 <= i < |s| ==> IsDigit(s[i])
  {
    if s == [] then 0
    else
      assert IsDigit(s[|s| - 1]);
      10 * DigitsValue(s[..|s| - 1]) + (s[|s| - 1] as int - '0' as int)
  }

  /** Reading the digits back gives the number: the decimal form loses nothing. */
  lemma {:induction false} DigitsRoundTrip(n: nat)
    ensures DigitsValue(NatDigits(n)) == n
    decreases n
  {
    if n >= 10 {
      var s := NatDigits(n);
      assert s[..|s| - 1] == NatDigits(n / 10);
      DigitsRoundTrip(n / 10);
    }
  }

  /** `String(v)`: the property key or string form JavaScript gives a primitive.
      Integers print in plain decimal (what JavaScript does below 10^21). */
  function ToJsString(v: Scalar): string {
    match v
    case Undefined => "undefined"
    case Null => "null"
    case Bool(b) => if b then "true" else "false"
    case Num(n) => if n < 0 then "-" + NatDigits(-n) else NatDigits(n)
    case Str(s) => s
  }

  /** The decimal form of a natural number determines the number. */
  lemma NatDigitsInjective(m: nat, n: nat)
    requires NatDigits(m) == NatDigits(n)
    ensures m == n
  {
    DigitsRoundTrip(m);
    DigitsRoundTrip(n);
  }

  /** A number's string starts with a minus sign exactly when it is negative. */
  lemma SignShows(n: int)
    ensures (n < 0) <==> ToJsString(Num(n))[0] == '-'
  {
    if n >= 0 {
      assert IsDigit(NatDigits(n)[0]);
    }
  }

  /** Two numeric ids compare equal as strings only when they are the same number. */
  lemma NumberStringsInjective(a: int, b: int)
    requires ToJsString(Num(a)) == ToJsString(Num(b))
    ensures a == b
  {
    var sa, sb := ToJsString(Num(a)), ToJsString(Num(b));
    SignShows(a);
    SignShows(b);
    if a < 0 {
      assert sa[1..] == NatDigits(-a) && sb[1..] == NatDigits(-b);
      NatDigitsInjective(-a, -b);
    } else {
      NatDigitsInjective(a, b);
    }
  }
}
