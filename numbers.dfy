/** strconv.ParseInt(value, 10, 64) as newPlacementRecord's parseInt uses it:
    an optional sign, then ParseUint's left-to-right digit scan, which stops
    at the first character that is not a digit (a syntax error, value 0) or
    at the first digit that overflows 64 bits (a range error, value clamped). */
module Numbers {
  import opened Text

  const MaxUint64: int := 0xFFFF_FFFF_FFFF_FFFF
  const MaxInt64: int := 0x7FFF_FFFF_FFFF_FFFF
  const MinInt64: int := -0x8000_0000_0000_0000

  /** The outcome of ParseUint's scan so far. */
  datatype UintScan = SyntaxError | RangeError | Scanned(n: nat)

  /** ParseUint's digit loop over s; the prefix is scanned before the last character. */
  function ScanUint(s: string): UintScan
  {
    if s == [] then Scanned(0)
    else
      match ScanUint(s[..|s| - 1])
      case SyntaxError => SyntaxError
      case RangeError => RangeError
      case Scanned(n) =>
        var c := s[|s| - 1];
        if !IsDigit(c) then SyntaxError
        else if n * 10 + DigitValue(c) > MaxUint64 then RangeError
        else Scanned(n * 10 + DigitValue(c))
  }

  /** strconv.ParseUint(s, 10, 64): it yields a value exactly for non-empty
      all-digit text whose value fits in 64 bits, and all-digit text that does
      not fit is a range error. The empty string is a syntax error; other text
      is one unless the digits before its first non-digit already overflow. */
  function ParseUint(s: string): (r: UintScan)
    ensures r.Scanned? <==> s != [] && AllDigits(s) && DigitsValue(s) <= MaxUint64
    ensures r.Scanned? ==> r.n == DigitsValue(s)
    ensures s != [] && AllDigits(s) && DigitsValue(s) > MaxUint64 ==> r.RangeError?
    ensures s == [] ==> r.SyntaxError?
  {
    if s == [] then SyntaxError
    else
      ScanUintDigits(s);
      ScanUint(s)
  }

  lemma {:induction false} ScanUintDigits(s: string)
    ensures ScanUint(s).Scanned? <==> AllDigits(s) && DigitsValue(s) <= MaxUint64
    ensures ScanUint(s).Scanned? ==> ScanUint(s).n == DigitsValue(s)
    ensures ScanUint(s).SyntaxError? ==> !AllDigits(s)
  {
    if s != [] {
      var init := s[..|s| - 1];
      ScanUintDigits(init);
      assert AllDigits(s) ==> AllDigits(init);
    }
  }

  /** The result of ParseInt: the value Go returns and whether an error came with it. */
  datatype IntParse = IntParse(value: int, failed: bool)

  function ParseInt(s: string): (r: IntParse)
    ensures MinInt64 <= r.value <= MaxInt64
    ensures r.failed ==> r.value in {0, MaxInt64, MinInt64}
  {
    if s == [] then IntParse(0, true)
    else
      var neg := s[0] == '-';
      var digits := if s[0] == '+' || s[0] == '-' then s[1..] else s;
      match ParseUint(digits)
      case SyntaxError => IntParse(0, true)
      case RangeError => IntParse(if neg then MinInt64 else MaxInt64, true)
      case Scanned(u) =>
        if !neg && u > MaxInt64 then IntParse(MaxInt64, true)
        else if neg && u > -MinInt64 then IntParse(MinInt64, true)
        else IntParse(if neg then -(u as int) else u, false)
  }

  /** An optional sign followed by one or more decimal digits. */
  predicate IsSignedDecimal(s: string)
  {
    s != [] &&
    var digits := if s[0] == '+' || s[0] == '-' then s[1..] else s;
    digits != [] && AllDigits(digits)
  }

  function SignedValue(s: string): int
    requires IsSignedDecimal(s)
  {
    if s[0] == '-' then -(DigitsValue(s[1..]) as int)
    else if s[0] == '+' then DigitsValue(s[1..])
    else DigitsValue(s)
  }

  /** ParseInt succeeds exactly on the signed decimal strings whose value fits in
      64 bits, and then returns that value; a signed decimal string outside the
      range yields the nearest bound together with an error. */
  lemma ParseIntExact(s: string)
    ensures !ParseInt(s).failed <==> IsSignedDecimal(s) && MinInt64 <= SignedValue(s) <= MaxInt64
    ensures !ParseInt(s).failed ==> ParseInt(s).value == SignedValue(s)
    ensures IsSignedDecimal(s) && SignedValue(s) > MaxInt64 ==> ParseInt(s) == IntParse(MaxInt64, true)
    ensures IsSignedDecimal(s) && SignedValue(s) < MinInt64 ==> ParseInt(s) == IntParse(MinInt64, true)
  {
    if s != [] {
      var digits := if s[0] == '+' || s[0] == '-' then s[1..] else s;
      ScanUintDigits(digits);
    }
  }

  function Pow10(k: nat): nat
  {
    if k == 0 then 1 else 10 * Pow10(k - 1)
  }

  /** A scan of k characters yields a value below 10^k, so it cannot
      overflow while k is at most 19; a non-digit then makes it a syntax
      error. */
  lemma {:induction false} ScanUintShort(s: string)
    requires |s| <= 19
    ensures !ScanUint(s).RangeError?
    ensures ScanUint(s).Scanned? ==> ScanUint(s).n < Pow10(|s|)
  {
    if s != [] {
      Pow10Mono(|s| - 1);
      ScanUintShort(s[..|s| - 1]);
    }
  }

  lemma {:induction false} Pow10Mono(k: nat)
    requires k < 19
    ensures 10 * Pow10(k) <= MaxUint64
    decreases 19 - k
  {
    if k == 18 {
      Pow10Value(18);
    } else {
      Pow10Mono(k + 1);
    }
  }

  lemma {:induction false} Pow10Value(k: nat)
    requires k == 18
    ensures Pow10(k) == 1_000_000_000_000_000_000
  {
    assert Pow10(0) == 1;
    assert Pow10(1) == 10;
    assert Pow10(2) == 100;
    assert Pow10(3) == 1000;
    assert Pow10(4) == 10000;
    assert Pow10(5) == 100000;
    assert Pow10(6) == 1000000;
    assert Pow10(7) == 10000000;
    assert Pow10(8) == 100000000;
    assert Pow10(9) == 1000000000;
    assert Pow10(10) == 10000000000;
    assert Pow10(11) == 100000000000;
    assert Pow10(12) == 1000000000000;
    assert Pow10(13) == 10000000000000;
    assert Pow10(14) == 100000000000000;
    assert Pow10(15) == 1000000000000000;
    assert Pow10(16) == 10000000000000000;
    assert Pow10(17) == 100000000000000000;
  }

  /** A text that is not an optionally signed decimal gives strconv's syntax
      error and the value 0, when at most 19 characters follow the sign (too
      few for the digits before the first non-digit to overflow first). */
  lemma ParseIntSyntaxError(s: string)
    requires !IsSignedDecimal(s)
    requires |s| <= 19 || (|s| == 20 && (s[0] == '+' || s[0] == '-'))
    ensures ParseInt(s) == IntParse(0, true)
  {
    if s != [] {
      var digits := if s[0] == '+' || s[0] == '-' then s[1..] else s;
      if digits != [] {
        ScanUintShort(digits);
        ScanUintDigits(digits);
      }
    }
  }

  /** The text after an optional leading sign. */
  function Unsigned(s: string): (d: string)
    ensures |d| <= |s|
  {
    if s != [] && (s[0] == '+' || s[0] == '-') then s[1..] else s
  }

  /** Once the scan has failed, later characters change nothing: the first
      syntax or range error ends strconv's loop. */
  lemma {:induction false} ScanSticks(s: string, t: string)
    requires !ScanUint(s).Scanned?
    ensures ScanUint(s + t) == ScanUint(s)
    decreases |t|
  {
    if t != [] {
      var init := t[..|t| - 1];
      ScanSticks(s, init);
      var u := s + t;
      assert u != [] && u[..|u| - 1] == s + init;
      assert !ScanUint(u[..|u| - 1]).Scanned?;
    } else {
      assert s + t == s;
    }
  }

  /** A text whose first non-digit after the sign comes before any overflow
      is a syntax error with the value 0, however long the text. */
  lemma ParseIntSyntaxGeneral(s: string, j: nat)
    requires var d := Unsigned(s);
      j < |d| && AllDigits(d[..j]) && !IsDigit(d[j]) && DigitsValue(d[..j]) <= MaxUint64
    ensures ParseInt(s) == IntParse(0, true)
  {
    var d := Unsigned(s);
    ScanUintDigits(d[..j]);
    assert d[..j + 1][..j] == d[..j];
    assert ScanUint(d[..j + 1]) == SyntaxError;
    ScanSticks(d[..j + 1], d[j + 1..]);
    assert d[..j + 1] + d[j + 1..] == d;
  }

  /** A text whose digits after the sign overflow 64 bits before any
      non-digit is a range error with the bound of its sign, however the text
      goes on. */
  lemma ParseIntRangeFirst(s: string, j: nat)
    requires var d := Unsigned(s);
      j <= |d| && AllDigits(d[..j]) && DigitsValue(d[..j]) > MaxUint64
    ensures ParseInt(s) == IntParse(if s[0] == '-' then MinInt64 else MaxInt64, true)
  {
    var d := Unsigned(s);
    ScanUintDigits(d[..j]);
    assert ScanUint(d[..j]) == RangeError;
    ScanSticks(d[..j], d[j..]);
    assert d[..j] + d[j..] == d;
  }

  /** strconv.FormatInt(n, 10): a signed decimal text denoting n, with a
      minus sign exactly when n is negative. */
  function FormatInt(n: int): (r: string)
    ensures IsSignedDecimal(r) && SignedValue(r) == n
    ensures r[0] == '-' <==> n < 0
  {
    DecimalValue(if n < 0 then -n else n);
    var r := if n < 0 then "-" + Decimal(-n) else Decimal(n);
    assert n < 0 ==> r[1..] == Decimal(-n);
    r
  }

  /** Every 64-bit integer survives formatting and parsing back. */
  lemma ParseFormatInt(n: int)
    requires MinInt64 <= n <= MaxInt64
    ensures ParseInt(FormatInt(n)) == IntParse(n, false)
  {
    var s := FormatInt(n);
    if n < 0 {
      assert s[1..] == Decimal(-n);
      DecimalValue(-n);
    } else {
      DecimalValue(n);
    }
    ParseIntExact(s);
  }
}
