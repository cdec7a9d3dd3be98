/** Go's `strconv.Atoi` for a 64-bit `int`, including what it returns on
    malformed and out-of-range input (the error value itself is not
    modelled, only the number, because the error constructor ignores the
    error). `Atoi` answers like `strconv.ParseInt(s, 10, 0)`: its fast path
    for strings shorter than 19 bytes gives the same results. */
module Strconv {
  import opened GoStrings

  const MaxUint64: nat := 0xFFFF_FFFF_FFFF_FFFF
  const MaxInt64: nat := 0x7FFF_FFFF_FFFF_FFFF
  const MinInt64: int := -0x8000_0000_0000_0000

  /** What `strconv.ParseUint(s, 10, 64)` reports. */
  datatype UintResult = Value(n: nat) | SyntaxError | RangeError

  predicate IsDigit(b: byte) {
    48 <= b <= 57
  }

  predicate AllDigits(s: Bytes) {
    forall i | 0 <= i < |s| :: IsDigit(s[i])
  }

  /** The number a string of decimal digits denotes (reference definition,
      last digit least significant). */
  function DecimalValue(s: Bytes): nat
    requires AllDigits(s)
  {
    if s == [] then 0 else DecimalValue(s[..|s| - 1]) * 10 + (s[|s| - 1] - Zero) as nat
  }

  /** The digit loop of `ParseUint` in base 10 from the running value `n`:
      a non-digit is a syntax error, and a value that would exceed
      2^64 - 1 is a range error, whichever comes first. */
  function Accumulate(s: Bytes, n: nat): (r: UintResult)
    requires n <= MaxUint64
    ensures r.Value? ==> r.n <= MaxUint64 && AllDigits(s)
    decreases |s|
  {
    if s == [] then Value(n)
    else if !IsDigit(s[0]) then SyntaxError
    else if n * 10 + (s[0] - Zero) as nat > MaxUint64 then RangeError
    else
      var r := Accumulate(s[1..], n * 10 + (s[0] - Zero) as nat);
      assert r.Value? ==> forall i | 1 <= i < |s| :: s[i] == s[1..][i - 1];
      r
  }

  /** `strconv.ParseUint(s, 10, 64)`. */
  function ParseUint10(s: Bytes): (r: UintResult)
    ensures r.Value? <==> s != [] && AllDigits(s) && DecimalValue(s) <= MaxUint64
    ensures r.Value? ==> r.n == DecimalValue(s)
  {
    if s == [] then SyntaxError
    else if AllDigits(s) then
      AccumulateDigits(s);
      Accumulate(s, 0)
    else Accumulate(s, 0)
  }

  /** `strconv.ParseInt(s, 10, 64)`, the number only: 0 on a syntax error,
      the nearest bound on a range error. */
  function ParseInt64(s: Bytes): (n: int)
    ensures MinInt64 <= n <= MaxInt64
  {
    if s == [] then 0
    else
      var neg := s[0] == Minus;
      var body := if s[0] == Plus || s[0] == Minus then s[1..] else s;
      match ParseUint10(body)
      case SyntaxError => 0
      case RangeError => if neg then MinInt64 else MaxInt64
      case Value(u) =>
        if !neg && u > MaxInt64 then MaxInt64
        else if neg && u > -MinInt64 then MinInt64
        else if neg then -(u as int)
        else u
  }

  /** `strconv.Atoi` on a platform whose `int` has 64 bits. */
  function Atoi(s: Bytes): (n: int)
    ensures MinInt64 <= n <= MaxInt64
    ensures s == [] ==> n == 0
    ensures n < 0 ==> s[0] == Minus
  {
    ParseInt64(s)
  }

  lemma {:induction false} AccumulateConcat(a: Bytes, b: Bytes, n: nat)
    requires n <= MaxUint64
    ensures Accumulate(a + b, n) ==
              match Accumulate(a, n)
              case Value(m) => Accumulate(b, m)
              case other => other
    decreases |a|
  {
    if a == [] {
      assert a + b == b;
    } else {
      assert (a + b)[0] == a[0] && (a + b)[1..] == a[1..] + b;
      if IsDigit(a[0]) && n * 10 + (a[0] - Zero) as nat <= MaxUint64 {
        AccumulateConcat(a[1..], b, n * 10 + (a[0] - Zero) as nat);
      }
    }
  }

  /** On a string of digits the loop computes the decimal value, or reports
      a range error exactly when that value exceeds 2^64 - 1. */
  lemma {:induction false} AccumulateDigits(s: Bytes)
    requires AllDigits(s)
    ensures Accumulate(s, 0) ==
              if DecimalValue(s) <= MaxUint64 then Value(DecimalValue(s)) else RangeError
    decreases |s|
  {
    if s != [] {
      var p, d := s[..|s| - 1], s[|s| - 1];
      assert s == p + [d];
      AccumulateDigits(p);
      AccumulateConcat(p, [d], 0);
      assert DecimalValue(s) == DecimalValue(p) * 10 + (d - Zero) as nat;
    }
  }

  /** A non-digit ends the parse with a syntax error unless the digits before
      it already overflowed. */
  lemma SyntaxErrorAtNonDigit(p: Bytes, x: byte, q: Bytes)
    requires AllDigits(p) && DecimalValue(p) <= MaxUint64 && !IsDigit(x)
    ensures ParseUint10(p + [x] + q) == SyntaxError
  {
    AccumulateDigits(p);
    assert p + [x] + q == p + ([x] + q);
    AccumulateConcat(p, [x] + q, 0);
  }

  /** `Atoi` of an optionally signed string of digits is its value, clamped
      to the range of a 64-bit `int`. */
  lemma AtoiDigits(sign: Bytes, digits: Bytes)
    requires sign == [] || sign == [Plus] || sign == [Minus]
    requires digits != [] && AllDigits(digits)
    ensures Atoi(sign + digits) ==
              if sign == [Minus] then (if DecimalValue(digits) <= -MinInt64 then -(DecimalValue(digits) as int) else MinInt64)
              else (if DecimalValue(digits) <= MaxInt64 then DecimalValue(digits) else MaxInt64)
  {
    AccumulateDigits(digits);
    var s := sign + digits;
    assert s[0] == if sign == [] then digits[0] else sign[0];
    assert (if s[0] == Plus || s[0] == Minus then s[1..] else s) == digits;
  }
}
