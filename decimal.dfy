/**
  Decimal text <-> integer conversions as the programs use them:
  Go's strconv.ParseUint(s, 10, 64), strconv.ParseInt(s, 10, 64) and the
  decimal formatting of a non-negative integer (fmt's %d, strconv.FormatInt).

  The parsers scan left to right as Go's do: the first character that is not
  a decimal digit is a syntax error, and the first prefix whose value leaves
  the 64-bit range is a range error. Their results are tied to `Value`, the
  textbook positional value of a digit string.
 */
module Decimal {
  import opened Wrappers

  /** Largest uint64 value. */
  const MaxUint64: nat := 0xFFFF_FFFF_FFFF_FFFF
  /** 1 << 63: one more than the largest int64 value, and minus the smallest. */
  const Int64Cutoff: nat := 0x8000_0000_0000_0000

  /** The two kinds of strconv.NumError. */
  datatype NumError = InvalidSyntax | OutOfRange

  predicate IsDigit(c: char) {
    '0' <= c <= '9'
  }

  function DigitValue(c: char): (d: nat)
    requires IsDigit(c)
    ensures d < 10
  {
    c as int - '0' as int
  }

  function DigitChar(d: nat): (c: char)
    requires d < 10
    ensures IsDigit(c) && DigitValue(c) == d
  {
    ('0' as int + d) as char
  }

  predicate AllDigits(s: string) {
    forall k :: 0 <= k < |s| ==> IsDigit(s[k])
  }

  /** Positional value of a digit string, most significant digit first. */
  function Value(s: string): nat
    requires AllDigits(s)
  {
    if s == [] then 0 else 10 * Value(s[..|s| - 1]) + DigitValue(s[|s| - 1])
  }

  /** The digit loop of ParseUint: `n` is the value accumulated so far. */
  function Accumulate(s: string, n: nat): Result<nat, NumError>
    decreases |s|
  {
    if s == [] then Success(n)
    else if !IsDigit(s[0]) then Failure(InvalidSyntax)
    else if n * 10 + DigitValue(s[0]) > MaxUint64 then Failure(OutOfRange)
    else Accumulate(s[1..], n * 10 + DigitValue(s[0]))
  }

  /** The value of a digit string is at least the value of each of its prefixes. */
  lemma {:induction false} ValuePrefixAtMost(s: string, i: nat)
    requires AllDigits(s) && i <= |s|
    ensures AllDigits(s[..i]) && Value(s[..i]) <= Value(s)
    decreases |s|
  {
    if i < |s| {
      var init := s[..|s| - 1];
      assert init[..i] == s[..i];
      ValuePrefixAtMost(init, i);
    } else {
      assert s[..i] == s;
    }
  }

  /**
    The loop, entered after the first `i` characters with their value
    accumulated, succeeds exactly when the whole string is digits and its
    value fits in 64 bits, and then returns that value; a digit string whose
    value does not fit is a range error.
   */
  lemma {:induction false} AccumulateSpec(s: string, i: nat)
    requires i <= |s| && AllDigits(s[..i]) && Value(s[..i]) <= MaxUint64
    ensures Accumulate(s[i..], Value(s[..i])).Success? <==> AllDigits(s) && Value(s) <= MaxUint64
    ensures Accumulate(s[i..], Value(s[..i])).Success? ==> Accumulate(s[i..], Value(s[..i])).value == Value(s)
    ensures AllDigits(s) && Value(s) > MaxUint64 ==> Accumulate(s[i..], Value(s[..i])) == Failure(OutOfRange)
    decreases |s| - i
  {
    var n := Value(s[..i]);
    if i == |s| {
      assert s[..i] == s;
    } else {
      assert s[i..][0] == s[i];
      if IsDigit(s[i]) {
        var next := s[..i + 1];
        assert next[..i] == s[..i];
        assert AllDigits(next);
        assert Value(next) == n * 10 + DigitValue(s[i]);
        assert s[i..][1..] == s[i + 1..];
        if Value(next) > MaxUint64 {
          if AllDigits(s) { ValuePrefixAtMost(s, i + 1); }
        } else {
          AccumulateSpec(s, i + 1);
        }
      }
    }
  }

  /** strconv.ParseUint(s, 10, 64). */
  function ParseUint64(s: string): Result<nat, NumError> {
    if s == [] then Failure(InvalidSyntax) else Accumulate(s, 0)
  }

  /**
    ParseUint succeeds exactly on a non-empty digit string whose value fits in
    64 bits, and returns that value; the empty string is a syntax error, and a
    digit string too large is a range error.
   */
  lemma ParseUint64Spec(s: string)
    ensures ParseUint64(s).Success? <==> s != [] && AllDigits(s) && Value(s) <= MaxUint64
    ensures ParseUint64(s).Success? ==> ParseUint64(s).value == Value(s)
    ensures s == [] ==> ParseUint64(s) == Failure(InvalidSyntax)
    ensures s != [] && AllDigits(s) && Value(s) > MaxUint64 ==> ParseUint64(s) == Failure(OutOfRange)
  {
    if s != [] {
      assert s[..0] == [] && s[0..] == s;
      AccumulateSpec(s, 0);
    }
  }

  /** The digits of strconv.ParseInt's input after an optional leading sign. */
  function Unsigned(s: string): string {
    if s != [] && (s[0] == '+' || s[0] == '-') then s[1..] else s
  }

  predicate Negative(s: string) {
    s != [] && s[0] == '-'
  }

  /** strconv.ParseInt(s, 10, 64). */
  function ParseInt64(s: string): Result<int, NumError> {
    if s == [] then Failure(InvalidSyntax)
    else
      var neg := s[0] == '-';
      match ParseUint64(Unsigned(s))
      case Failure(e) => Failure(e)
      case Success(un) =>
        if !neg && un >= Int64Cutoff then Failure(OutOfRange)
        else if neg && un > Int64Cutoff then Failure(OutOfRange)
        else Success(if neg then -(un as int) else un)
  }

  /**
    ParseInt succeeds exactly when the text after an optional sign is a
    non-empty digit string whose signed value is in the int64 range, and
    returns that signed value.
   */
  lemma ParseInt64Spec(s: string)
    ensures ParseInt64(s).Success? <==>
      var d := Unsigned(s);
      d != [] && AllDigits(d) && (if Negative(s) then Value(d) <= Int64Cutoff else Value(d) < Int64Cutoff)
    ensures ParseInt64(s).Success? ==>
      ParseInt64(s).value == (if Negative(s) then -(Value(Unsigned(s)) as int) else Value(Unsigned(s)))
    ensures ParseInt64(s).Success? ==> -(Int64Cutoff as int) <= ParseInt64(s).value < Int64Cutoff
  {
    ParseUint64Spec(Unsigned(s));
  }

  /** Decimal text of a non-negative integer, without leading zeros. */
  function FormatNat(n: nat): (s: string)
    ensures s != [] && AllDigits(s) && Value(s) == n
    ensures s[0] == '0' ==> n == 0
  {
    if n < 10 then [DigitChar(n)]
    else
      var init := FormatNat(n / 10);
      var s := init + [DigitChar(n % 10)];
      assert s[..|s| - 1] == init;
      s
  }

  /** What a worker sends for its index is read back as that index. */
  lemma FormatParseRoundTrip(n: nat)
    requires n < Int64Cutoff
    ensures ParseUint64(FormatNat(n)) == Success(n)
    ensures ParseInt64(FormatNat(n)) == Success(n)
  {
    var s := FormatNat(n);
    assert !Negative(s) && Unsigned(s) == s by {
      assert IsDigit(s[0]);
    }
    ParseUint64Spec(s);
    ParseInt64Spec(s);
  }
}
