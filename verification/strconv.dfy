/** Decimal parsing as Go's strconv.Atoi performs it on a 64-bit platform,
    and the conversion of its result to uint. The handler that creates a
    service reads the environment ID from the URL this way and discards the
    error, so every outcome of the parse, errors included, is a value. */
module Strconv {

  const MaxUint64: nat := 0xFFFF_FFFF_FFFF_FFFF
  const MaxInt64: nat := 0x7FFF_FFFF_FFFF_FFFF
  const MinInt64: int := -0x8000_0000_0000_0000
  const Uint64Limit: nat := 0x1_0000_0000_0000_0000

  /** ParseUint's overflow guard for base 10: an accumulator at or above this overflows when multiplied by 10 */
  const Cutoff: nat := MaxUint64 / 10 + 1

  datatype NumError = NoError | SyntaxError | RangeError

  /** A parsed value and the error strconv reports with it */
  datatype Parsed = Parsed(value: int, err: NumError)

  predicate IsDigit(c: char) {
    '0' <= c <= '9'
  }

  predicate AllDigits(s: string) {
    forall i :: 0 <= i < |s| ==> IsDigit(s[i])
  }

  function DigitValue(c: char): nat
    requires IsDigit(c)
  {
    c as int - '0' as int
  }

  function DigitChar(d: nat): (c: char)
    requires d < 10
    ensures IsDigit(c) && DigitValue(c) == d
  {
    ('0' as int + d) as char
  }

  /** ParseUint's loop over the digits of a base-10 string, accumulating into n */
  function ScanDigits(s: string, n: nat): (r: Parsed)
    requires n <= MaxUint64
    ensures 0 <= r.value <= MaxUint64
    ensures r.err == SyntaxError ==> r.value == 0
    ensures r.err == RangeError ==> r.value == MaxUint64
    decreases |s|
  {
    if s == [] then Parsed(n, NoError)
    else if !IsDigit(s[0]) then Parsed(0, SyntaxError)
    else if n >= Cutoff then Parsed(MaxUint64, RangeError)
    else
      var n1 := n * 10 + DigitValue(s[0]);
      if n1 > MaxUint64 then Parsed(MaxUint64, RangeError)
      else ScanDigits(s[1..], n1)
  }

  /** strconv.ParseUint(s, 10, 64) */
  function ParseUint(s: string): Parsed
  {
    if s == [] then Parsed(0, SyntaxError) else ScanDigits(s, 0)
  }

  /** What follows the optional sign */
  function Unsigned(s: string): string {
    if s != [] && (s[0] == '+' || s[0] == '-') then s[1..] else s
  }

  /** strconv.Atoi with 64-bit int, which returns what ParseInt(s, 10, 64)
      returns: an optional sign, then ParseUint of the rest, clamped to the
      int64 range with a range error. */
  function Atoi(s: string): (r: Parsed)
    ensures MinInt64 <= r.value <= MaxInt64
    ensures r.err == SyntaxError ==> r.value == 0
    ensures r.err == RangeError ==> r.value == MaxInt64 || r.value == MinInt64
  {
    if s == [] then Parsed(0, SyntaxError)
    else
      var neg := s[0] == '-';
      var u := ParseUint(Unsigned(s));
      if u.err == SyntaxError then Parsed(0, SyntaxError)
      else if !neg && u.value > MaxInt64 then Parsed(MaxInt64, RangeError)
      else if neg && u.value > MaxInt64 + 1 then Parsed(MinInt64, RangeError)
      else Parsed(if neg then -u.value else u.value, NoError)
  }

  /** Go's uint(v) for a 64-bit int v: negative values wrap around modulo 2^64 */
  function UintOf(v: int): (u: nat)
    requires MinInt64 <= v <= MaxInt64
    ensures u < Uint64Limit
    ensures (u - v) % Uint64Limit == 0
  {
    if v < 0 then v + Uint64Limit else v
  }

  /** The canonical decimal numeral of n, without sign or leading zeros */
  function Decimal(n: nat): (s: string)
    ensures |s| > 0 && AllDigits(s)
  {
    if n < 10 then [DigitChar(n)] else Decimal(n / 10) + [DigitChar(n % 10)]
  }

  /** The value of a digit string read after an accumulator acc */
  function Horner(acc: nat, s: string): nat
    requires AllDigits(s)
    decreases |s|
  {
    if s == [] then acc else Horner(acc * 10 + DigitValue(s[0]), s[1..])
  }

  lemma {:induction false} HornerAppend(acc: nat, a: string, b: string)
    requires AllDigits(a) && AllDigits(b)
    ensures AllDigits(a + b)
    ensures Horner(acc, a + b) == Horner(Horner(acc, a), b)
    decreases |a|
  {
    if a != [] {
      assert (a + b)[1..] == a[1..] + b;
      HornerAppend(acc * 10 + DigitValue(a[0]), a[1..], b);
    } else {
      assert a + b == b;
    }
  }

  lemma {:induction false} HornerAtLeast(acc: nat, s: string)
    requires AllDigits(s)
    ensures Horner(acc, s) >= acc
    ensures s != [] ==> Horner(acc, s) >= acc * 10
    decreases |s|
  {
    if s != [] {
      HornerAtLeast(acc * 10 + DigitValue(s[0]), s[1..]);
    }
  }

  /** The decimal numeral of n has the value n */
  lemma {:induction false} DecimalValue(n: nat)
    ensures Horner(0, Decimal(n)) == n
  {
    if n >= 10 {
      DecimalValue(n / 10);
      HornerAppend(0, Decimal(n / 10), [DigitChar(n % 10)]);
    }
  }

  /** When the digits' value fits in 64 bits, ParseUint's loop returns it without error */
  lemma {:induction false} ScanInRange(s: string, n: nat)
    requires n <= MaxUint64 && AllDigits(s)
    requires Horner(n, s) <= MaxUint64
    ensures ScanDigits(s, n) == Parsed(Horner(n, s), NoError)
    decreases |s|
  {
    if s != [] {
      HornerAtLeast(n, s);
      var n1 := n * 10 + DigitValue(s[0]);
      HornerAtLeast(n1, s[1..]);
      ScanInRange(s[1..], n1);
    }
  }

  /** When the digits' value does not fit in 64 bits, ParseUint's loop reports a range error */
  lemma {:induction false} ScanOutOfRange(s: string, n: nat)
    requires n <= MaxUint64 && AllDigits(s)
    requires Horner(n, s) > MaxUint64
    ensures ScanDigits(s, n) == Parsed(MaxUint64, RangeError)
    decreases |s|
  {
    if s != [] && n < Cutoff {
      var n1 := n * 10 + DigitValue(s[0]);
      if n1 <= MaxUint64 {
        ScanOutOfRange(s[1..], n1);
      }
    }
  }

  /** A non-digit reached before the digits overflow is a syntax error, whatever follows it */
  lemma {:induction false} ScanStops(digits: string, c: char, rest: string, n: nat)
    requires n <= MaxUint64 && AllDigits(digits) && !IsDigit(c)
    requires Horner(n, digits) <= MaxUint64
    ensures ScanDigits(digits + [c] + rest, n) == Parsed(0, SyntaxError)
    decreases |digits|
  {
    var s := digits + [c] + rest;
    if digits == [] {
      assert s[0] == c;
    } else {
      HornerAtLeast(n, digits);
      var n1 := n * 10 + DigitValue(digits[0]);
      HornerAtLeast(n1, digits[1..]);
      assert s[0] == digits[0];
      assert s[1..] == digits[1..] + [c] + rest;
      ScanStops(digits[1..], c, rest, n1);
    }
  }

  /** Digits that overflow before anything else is read are a range error, whatever follows them */
  lemma {:induction false} ScanOverflows(digits: string, rest: string, n: nat)
    requires n <= MaxUint64 && AllDigits(digits)
    requires Horner(n, digits) > MaxUint64
    ensures ScanDigits(digits + rest, n) == Parsed(MaxUint64, RangeError)
    decreases |digits|
  {
    var s := digits + rest;
    if digits != [] {
      assert s[0] == digits[0];
      if n < Cutoff {
        var n1 := n * 10 + DigitValue(digits[0]);
        if n1 <= MaxUint64 {
          assert s[1..] == digits[1..] + rest;
          ScanOverflows(digits[1..], rest, n1);
        }
      }
    }
  }

  /** Atoi reads back every int64 value from its decimal numeral */
  lemma AtoiDecimal(n: nat)
    requires n <= MaxInt64
    ensures Atoi(Decimal(n)) == Parsed(n, NoError)
  {
    var s := Decimal(n);
    DecimalValue(n);
    ScanInRange(s, 0);
    assert IsDigit(s[0]);
  }

  /** Atoi reads back every negative int64 value from a minus sign and the numeral of its magnitude */
  lemma AtoiNegative(n: nat)
    requires 0 < n <= MaxInt64 + 1
    ensures Atoi("-" + Decimal(n)) == Parsed(-(n as int), NoError)
  {
    var s := "-" + Decimal(n);
    assert s[1..] == Decimal(n);
    DecimalValue(n);
    ScanInRange(Decimal(n), 0);
  }

  /** A numeral above the int64 range is clamped to the largest int64, with a range error */
  lemma AtoiClamps(n: nat)
    requires n > MaxInt64
    ensures Atoi(Decimal(n)) == Parsed(MaxInt64, RangeError)
  {
    var s := Decimal(n);
    DecimalValue(n);
    assert IsDigit(s[0]);
    if n <= MaxUint64 {
      ScanInRange(s, 0);
    } else {
      ScanOutOfRange(s, 0);
    }
  }

  function Pow10(k: nat): nat {
    if k == 0 then 1 else 10 * Pow10(k - 1)
  }

  lemma Pow10Nineteen()
    ensures Pow10(18) == 1_000_000_000_000_000_000
    ensures Pow10(19) == 10_000_000_000_000_000_000
  {
    assert Pow10(6) == 1_000_000;
    assert Pow10(12) == 1_000_000_000_000;
  }

  lemma {:induction false} Pow10Monotone(j: nat, k: nat)
    requires j <= k
    ensures Pow10(j) <= Pow10(k)
    decreases k - j
  {
    if j < k {
      Pow10Monotone(j, k - 1);
    }
  }

  /** A string of at most 19 characters cannot overflow ParseUint's loop, so
      any non-digit in it is reported as a syntax error */
  lemma {:induction false} ScanSyntax(s: string, n: nat, k: nat)
    requires |s| + k <= 19 && n < Pow10(k) && n <= MaxUint64
    requires !AllDigits(s)
    ensures ScanDigits(s, n) == Parsed(0, SyntaxError)
    decreases |s|
  {
    if IsDigit(s[0]) {
      Pow10Nineteen();
      Pow10Monotone(k, 18);
      Pow10Monotone(k + 1, 19);
      var n1 := n * 10 + DigitValue(s[0]);
      assert !AllDigits(s[1..]) by {
        var i :| 0 <= i < |s| && !IsDigit(s[i]);
        assert s[1..][i - 1] == s[i];
      }
      ScanSyntax(s[1..], n1, k + 1);
    }
  }

  /** Anything but an optionally signed run of digits, up to 19 characters
      after the sign, is a syntax error with the value 0 */
  lemma AtoiNonNumeral(s: string)
    requires |Unsigned(s)| <= 19
    requires Unsigned(s) == [] || !AllDigits(Unsigned(s))
    ensures Atoi(s) == Parsed(0, SyntaxError)
  {
    if Unsigned(s) != [] {
      ScanSyntax(Unsigned(s), 0, 0);
    }
  }

  /** A non-digit after the sign and a run of digits that still fits in 64
      bits makes the whole input a syntax error with the value 0 */
  lemma AtoiStopsAtNonDigit(s: string, digits: string, c: char, rest: string)
    requires Unsigned(s) == digits + [c] + rest
    requires AllDigits(digits) && !IsDigit(c) && Horner(0, digits) <= MaxUint64
    ensures Atoi(s) == Parsed(0, SyntaxError)
  {
    ScanStops(digits, c, rest, 0);
  }

  /** Digits after the sign that overflow 64 bits before any non-digit make
      the input a range error, clamped towards its sign, whatever follows */
  lemma AtoiOverflowsFirst(s: string, digits: string, rest: string)
    requires Unsigned(s) == digits + rest
    requires AllDigits(digits) && Horner(0, digits) > MaxUint64
    ensures s != [] && Atoi(s) == Parsed(if s[0] == '-' then MinInt64 else MaxInt64, RangeError)
  {
    ScanOverflows(digits, rest, 0);
  }
}
