/**
 * Decimal integer text, as the writer checks it with Go's
 * strconv.ParseInt(s, 10, 64) and as Redis writes integer replies.
 *
 * ParseInt follows Go's algorithm: an optional '+' or '-', then ParseUint
 * on the rest, which reads the digits left to right and fails with a
 * syntax error on the first non-digit or a range error as soon as the
 * value leaves uint64; ParseInt then checks the int64 range. With base 10
 * there is no prefix and '_' is not accepted.
 */
module StrConv {
  import opened Wrappers

  const MaxUint64: int := 0xFFFF_FFFF_FFFF_FFFF
  const MaxInt64: int := 0x7FFF_FFFF_FFFF_FFFF
  const MinInt64: int := -0x8000_0000_0000_0000
  /** 1 << 63, the bound ParseInt compares the unsigned magnitude with. */
  const Cutoff: int := 0x8000_0000_0000_0000

  /** strconv.ErrSyntax and strconv.ErrRange. */
  datatype NumError = ErrSyntax | ErrRange

  predicate IsDigit(c: char) { '0' <= c <= '9' }

  function DigitValue(c: char): nat
    requires IsDigit(c)
  {
    (c as int) - ('0' as int)
  }

  predicate AllDigits(s: string) {
    forall k :: 0 <= k < |s| ==> IsDigit(s[k])
  }

  // ---------------------------------------------------------------------
  // Reference definitions: what a decimal numeral denotes.
  // ---------------------------------------------------------------------

  /** The value of a string of digits, most significant digit first. */
  function DecimalValue(s: string): nat
    requires AllDigits(s)
  {
    if s == [] then 0 else DecimalValue(s[..|s| - 1]) * 10 + DigitValue(s[|s| - 1])
  }

  /** The text after one leading sign, if there is one. */
  function Unsigned(s: string): string {
    if |s| > 0 && (s[0] == '+' || s[0] == '-') then s[1..] else s
  }

  /** An optional sign followed by at least one digit. */
  predicate IsDecimal(s: string) {
    |Unsigned(s)| > 0 && AllDigits(Unsigned(s))
  }

  function SignedValue(s: string): int
    requires IsDecimal(s)
  {
    if s[0] == '-' then -(DecimalValue(Unsigned(s)) as int) else DecimalValue(Unsigned(s))
  }

  // ---------------------------------------------------------------------
  // Go's algorithm.
  // ---------------------------------------------------------------------

  /** The digit loop of strconv.ParseUint with base 10 and bitSize 64, from index i with accumulator n. */
  function ParseDigits(s: string, i: nat, n: nat): Result<nat, NumError>
    requires i <= |s|
    decreases |s| - i
  {
    if i == |s| then Ok(n)
    else if !IsDigit(s[i]) then Err(ErrSyntax)
    // Go tests n >= cutoff and then n1 < n || n1 > maxVal on uint64;
    // on unbounded integers both say that n * 10 + d leaves uint64.
    else if n * 10 + DigitValue(s[i]) > MaxUint64 then Err(ErrRange)
    else ParseDigits(s, i + 1, n * 10 + DigitValue(s[i]))
  }

  /** strconv.ParseUint(s, 10, 64). */
  function ParseUint(s: string): Result<nat, NumError> {
    if s == [] then Err(ErrSyntax) else ParseDigits(s, 0, 0)
  }

  /** strconv.ParseInt(s, 10, 64); the clamped value Go returns beside a range error is not modelled. */
  function ParseInt(s: string): Result<int, NumError> {
    if s == [] then Err(ErrSyntax)
    else
      var neg := s[0] == '-';
      match ParseUint(Unsigned(s))
      case Err(e) => Err(e)
      case Ok(un) =>
        if !neg && un >= Cutoff then Err(ErrRange)
        else if neg && un > Cutoff then Err(ErrRange)
        else Ok(if neg then -(un as int) else un)
  }

  /** The decimal text of a natural number, without leading zeros. */
  function FormatNat(n: nat): (s: string)
    ensures |s| > 0 && AllDigits(s)
  {
    if n < 10 then [DigitChar(n)] else FormatNat(n / 10) + [DigitChar(n % 10)]
  }

  function DigitChar(d: nat): (c: char)
    requires d < 10
    ensures IsDigit(c) && DigitValue(c) == d
  {
    ('0' as int + d) as char
  }

  /** The decimal text of an integer, as strconv.FormatInt(n, 10) and Redis integer replies give it. */
  function FormatInt(n: int): string {
    if n < 0 then "-" + FormatNat(-n) else FormatNat(n)
  }

  // ---------------------------------------------------------------------
  // Properties.
  // ---------------------------------------------------------------------

  lemma {:induction false} DecimalValuePrefix(s: string, i: nat)
    requires AllDigits(s) && i <= |s|
    ensures AllDigits(s[..i]) && DecimalValue(s[..i]) <= DecimalValue(s)
    decreases |s| - i
  {
    assert AllDigits(s[..i]) by {
      forall k | 0 <= k < i ensures IsDigit(s[..i][k]) { assert s[..i][k] == s[k]; }
    }
    if i < |s| {
      DecimalValuePrefix(s, i + 1);
      assert s[..i + 1][..i] == s[..i];
    } else {
      assert s[..i] == s;
    }
  }

  /** The digit loop accepts exactly the digit strings whose value fits in uint64, and returns that value. */
  lemma {:induction false} ParseDigitsCorrect(s: string, i: nat)
    requires i <= |s| && AllDigits(s[..i]) && DecimalValue(s[..i]) <= MaxUint64
    ensures ParseDigits(s, i, DecimalValue(s[..i])).Ok?
            <==> AllDigits(s) && DecimalValue(s) <= MaxUint64
    ensures ParseDigits(s, i, DecimalValue(s[..i])).Ok? ==>
            ParseDigits(s, i, DecimalValue(s[..i])).value == DecimalValue(s)
    decreases |s| - i
  {
    if i == |s| {
      assert s[..i] == s;
    } else {
      var n := DecimalValue(s[..i]);
      var t := s[..i + 1];
      assert t[..i] == s[..i];
      if IsDigit(s[i]) {
        assert AllDigits(t) by {
          forall k | 0 <= k < i + 1 ensures IsDigit(t[k]) {
            if k < i { assert t[k] == s[..i][k]; }
          }
        }
        assert DecimalValue(t) == n * 10 + DigitValue(s[i]);
        if AllDigits(s) {
          DecimalValuePrefix(s, i + 1);
        }
        if n * 10 + DigitValue(s[i]) <= MaxUint64 {
          ParseDigitsCorrect(s, i + 1);
        }
      }
    }
  }

  lemma ParseUintCorrect(s: string)
    ensures ParseUint(s).Ok? <==> |s| > 0 && AllDigits(s) && DecimalValue(s) <= MaxUint64
    ensures ParseUint(s).Ok? ==> ParseUint(s).value == DecimalValue(s)
  {
    if s != [] {
      assert s[..0] == [];
      ParseDigitsCorrect(s, 0);
    }
  }

  /**
   * ParseInt succeeds exactly on an optional sign followed by digits whose
   * signed value lies in int64, and returns that value.
   */
  lemma ParseIntCorrect(s: string)
    ensures ParseInt(s).Ok? <==> IsDecimal(s) && MinInt64 <= SignedValue(s) <= MaxInt64
    ensures ParseInt(s).Ok? ==> ParseInt(s).value == SignedValue(s)
  {
    ParseUintCorrect(Unsigned(s));
  }

  lemma {:induction false} FormatNatValue(n: nat)
    ensures DecimalValue(FormatNat(n)) == n
  {
    if n >= 10 {
      FormatNatValue(n / 10);
      var s := FormatNat(n);
      assert s[..|s| - 1] == FormatNat(n / 10);
    }
  }

  /** Every int64 survives formatting and parsing back. */
  lemma ParseFormatRoundTrip(n: int)
    requires MinInt64 <= n <= MaxInt64
    ensures ParseInt(FormatInt(n)) == Ok(n)
  {
    var s := FormatInt(n);
    if n < 0 {
      FormatNatValue(-n);
      assert Unsigned(s) == FormatNat(-n);
    } else {
      FormatNatValue(n);
      assert Unsigned(s) == FormatNat(n);
    }
    ParseIntCorrect(s);
  }
}
