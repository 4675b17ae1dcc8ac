/** Values shared by the link command: optional values, the fixed-width
    integers the handler moves between (Discord ids are `u64`, the database
    column is `i64`, a Geometry Dash account id is `i32`), and the decimal
    rendering of an id that `to_string` produces. */
module Primitives {

  datatype Option<T> = None | Some(value: T)

  const TWO_63: int := 0x8000_0000_0000_0000
  const TWO_64: int := 0x1_0000_0000_0000_0000

  type U64 = x: int | 0 <= x < TWO_64
  type I64 = x: int | -TWO_63 <= x < TWO_63
  type I32 = x: int | -0x8000_0000 <= x < 0x8000_0000

  /** Rust's `u as i64` on a `u64`: the same 64 bits read as two's complement.
      Below 2^63 (where every Discord snowflake lies) the value is unchanged,
      and the cast loses nothing: `as u64` gives the original id back. */
  function AsI64(u: U64): (r: I64)
    ensures u < TWO_63 ==> r == u
    ensures AsU64(r) == u
  {
    if u < TWO_63 then u else u - TWO_64
  }

  /** Rust's `i as u64` on an `i64`: the same 64 bits read as unsigned. */
  function AsU64(i: I64): U64
  {
    if i >= 0 then i else i + TWO_64
  }

  /** Two distinct Discord ids never share a database id. */
  lemma AsI64Injective(a: U64, b: U64)
    requires AsI64(a) == AsI64(b)
    ensures a == b
  {
    assert AsU64(AsI64(a)) == a && AsU64(AsI64(b)) == b;
  }

  lemma AsU64RoundTrip(i: I64)
    ensures AsI64(AsU64(i)) == i
  {
  }

  predicate IsDigit(c: char)
  {
    '0' <= c <= '9'
  }

  predicate AllDigits(s: string)
  {
    forall i :: 0 <= i < |s| ==> IsDigit(s[i])
  }

  function DigitChar(d: nat): (c: char)
    requires d < 10
    ensures IsDigit(c) && c as int - '0' as int == d
  {
    ('0' as int + d) as char
  }

  /** `n.to_string()`: the base-ten digits of `n`, most significant first,
      with no leading zero. */
  function Decimal(n: nat): (s: string)
    ensures |s| > 0 && AllDigits(s)
    ensures s[0] == '0' <==> n == 0
    decreases n
  {
    if n < 10 then [DigitChar(n)] else Decimal(n / 10) + [DigitChar(n % 10)]
  }

  /** The number a string of digits denotes; the inverse of Decimal. */
  function DecimalValue(s: string): nat
    requires AllDigits(s)
  {
    if s == [] then 0
    else DecimalValue(s[..|s| - 1]) * 10 + (s[|s| - 1] as int - '0' as int)
  }

  lemma {:induction false} DecimalRoundTrip(n: nat)
    ensures DecimalValue(Decimal(n)) == n
    decreases n
  {
    var s := Decimal(n);
    if n >= 10 {
      DecimalRoundTrip(n / 10);
      assert s[..|s| - 1] == Decimal(n / 10);
    }
  }
}
