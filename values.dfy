/**
 * The PHP values that reach the tenant-scoping code: request data, entity
 * properties and primary keys. Only the shapes the model needs are kept.
 */
module Values {

  /** A PHP value. `Time` is a date-time object (or a date string the ORM already parsed). */
  datatype Value = Null | Bool(b: bool) | Int(i: int) | Str(s: string) | Time(t: nat)

  /** PHP `empty()` on a string: only "" and "0" are empty. */
  predicate EmptyString(s: string) {
    s == "" || s == "0"
  }

  /** PHP `is_scalar()`. */
  predicate Scalar(v: Value) {
    v.Bool? || v.Int? || v.Str?
  }

  function DigitChar(d: nat): (c: char)
    requires d < 10
    ensures '0' <= c <= '9'
  {
    "0123456789"[d]
  }

  /** Decimal digits of a natural number, most significant first. */
  function Digits(n: nat): (s: string)
    ensures 1 <= |s|
    ensures forall i :: 0 <= i < |s| ==> '0' <= s[i] <= '9'
    decreases n
  {
    if n < 10 then [DigitChar(n)] else Digits(n / 10) + [DigitChar(n % 10)]
  }

  /** PHP's `(string)` cast of a scalar. */
  function Text(v: Value): (s: string)
    requires Scalar(v)
  {
    match v
    case Str(s) => s
    case Int(i) => if i < 0 then "-" + Digits(-i) else Digits(i)
    case Bool(b) => if b then "1" else ""
  }
}
