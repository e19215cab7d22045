/**
 * Base-10 number text: Go's strconv.ParseUint and strconv.ParseInt with base 10
 * and bit size 64, and the `%d` rendering of a non-negative number.
 */
module Decimal {
  import opened Common
  import opened Ascii

  /** The two failure kinds of a strconv.NumError. */
  datatype NumError = ErrSyntax | ErrRange

  function DigitValue(c: char): (d: nat)
    requires IsDigit(c)
    ensures d < 10
  {
    c as int - '0' as int
  }

  function DigitChar(d: nat): (c: char)
    requires d < 10
    ensures IsDigit(c) && DigitValue(c) == d
  {
    ('0' as int + d) as char
  }

  predicate AllDigits(s: string)
  {
    forall i :: 0 <= i < |s| ==> IsDigit(s[i])
  }

  /** The number a digit string denotes (the empty string denotes 0). */
  function DigitsValue(s: string): nat
    requires AllDigits(s)
  {
    if s == [] then 0 else DigitsValue(s[..|s| - 1]) * 10 + DigitValue(s[|s| - 1])
  }

  /** A digit string as `%d` writes it: non-empty and without a leading zero. */
  predicate Canonical(s: string)
  {
    s != [] && AllDigits(s) && (|s| > 1 ==> s[0] != '0')
  }

  /**
   * The digit loop of strconv.ParseUint: characters are consumed left to right,
   * a non-digit is a syntax error and the first step that would exceed the
   * 64-bit range is a range error.
   */
  function ScanUint(s: string, i: nat, acc: uint64): Result<uint64, NumError>
    requires i <= |s|
    decreases |s| - i
  {
    if i == |s| then Ok(acc)
    else if !IsDigit(s[i]) then Err(ErrSyntax)
    else if acc * 10 + DigitValue(s[i]) > MAX_UINT64 then Err(ErrRange)
    else ScanUint(s, i + 1, acc * 10 + DigitValue(s[i]))
  }

  /** strconv.ParseUint(s, 10, 64). */
  function ParseUint(s: string): Result<uint64, NumError>
  {
    if s == [] then Err(ErrSyntax) else ScanUint(s, 0, 0)
  }

  /** strconv.ParseInt(s, 10, 64): one optional sign, then ParseUint, then the signed range. */
  function ParseInt(s: string): Result<int64, NumError>
  {
    if s == [] then Err(ErrSyntax)
    else
      var neg := s[0] == '-';
      var body := if s[0] == '+' || s[0] == '-' then s[1..] else s;
      match ParseUint(body)
      case Err(e) => Err(e)
      case Ok(un) =>
        if !neg && un >= 0x8000_0000_0000_0000 then Err(ErrRange)
        else if neg && un > 0x8000_0000_0000_0000 then Err(ErrRange)
        else Ok(if neg then -(un as int) else un as int)
  }

  /** Whether a text starts with a minus sign. */
  predicate Negative(s: string)
  {
    |s| > 0 && s[0] == '-'
  }

  /** The text after one optional leading sign. */
  function Unsigned(s: string): string
  {
    if |s| > 0 && (s[0] == '+' || s[0] == '-') then s[1..] else s
  }

  /** A decimal text with one optional sign whose value lies in the 64-bit signed range. */
  predicate IntLiteral(s: string)
  {
    var body := Unsigned(s);
    body != [] && AllDigits(body)
    && (if Negative(s) then DigitsValue(body) <= -MIN_INT64 else DigitsValue(body) <= MAX_INT64)
  }

  /** fmt's `%d` for a non-negative number. */
  function FormatNat(n: nat): string
  {
    if n < 10 then [DigitChar(n)] else FormatNat(n / 10) + [DigitChar(n % 10)]
  }

  /** fmt's `%d` for a signed number. */
  function FormatInt(n: int): string
  {
    if n < 0 then "-" + FormatNat(-n) else FormatNat(n)
  }

  // ---------------------------------------------------------------------------
  // Properties

  lemma {:induction false} DigitsValueAppend(s: string, c: char)
    requires AllDigits(s) && IsDigit(c)
    ensures AllDigits(s + [c])
    ensures DigitsValue(s + [c]) == DigitsValue(s) * 10 + DigitValue(c)
  {
    assert (s + [c])[..|s|] == s;
  }

  lemma {:induction false} DigitsValuePrefix(s: string, i: nat)
    requires AllDigits(s) && i <= |s|
    ensures AllDigits(s[..i]) && DigitsValue(s[..i]) <= DigitsValue(s)
    decreases |s|
  {
    if i < |s| {
      assert s[..|s| - 1][..i] == s[..i];
      DigitsValuePrefix(s[..|s| - 1], i);
    } else {
      assert s[..i] == s;
    }
  }

  /** A digit string without a leading zero denotes at least 1. */
  lemma {:induction false} DigitsValuePositive(s: string)
    requires AllDigits(s) && s != [] && s[0] != '0'
    ensures DigitsValue(s) >= 1
    decreases |s|
  {
    if |s| > 1 {
      DigitsValuePositive(s[..|s| - 1]);
    }
  }

  lemma {:induction false} ScanUintCorrect(s: string, i: nat, acc: uint64)
    requires i <= |s| && AllDigits(s[..i]) && acc == DigitsValue(s[..i])
    ensures ScanUint(s, i, acc).Ok? <==> AllDigits(s) && DigitsValue(s) <= MAX_UINT64
    ensures ScanUint(s, i, acc).Ok? ==> ScanUint(s, i, acc).value == DigitsValue(s)
    ensures AllDigits(s) && ScanUint(s, i, acc).Err? ==> ScanUint(s, i, acc).error == ErrRange
    decreases |s| - i
  {
    if i == |s| {
      assert s[..i] == s;
    } else if IsDigit(s[i]) {
      var next := acc * 10 + DigitValue(s[i]);
      ScanDigit(s, i);
      if next > MAX_UINT64 {
        PrefixExceeds(s, i + 1);
      } else {
        ScanUintCorrect(s, i + 1, next);
      }
    }
  }

  /** Consuming one more digit extends the value read so far. */
  lemma ScanDigit(s: string, i: nat)
    requires i < |s| && AllDigits(s[..i]) && IsDigit(s[i])
    ensures AllDigits(s[..i + 1]) && DigitsValue(s[..i + 1]) == DigitsValue(s[..i]) * 10 + DigitValue(s[i])
  {
    assert s[..i + 1] == s[..i] + [s[i]];
    DigitsValueAppend(s[..i], s[i]);
  }

  /** A prefix already out of range puts the whole digit string out of range. */
  lemma PrefixExceeds(s: string, j: nat)
    requires j <= |s| && AllDigits(s[..j]) && DigitsValue(s[..j]) > MAX_UINT64
    ensures AllDigits(s) ==> DigitsValue(s) > MAX_UINT64
  {
    if AllDigits(s) {
      DigitsValuePrefix(s, j);
    }
  }

  /** ParseUint accepts exactly the non-empty digit strings whose value fits in 64 bits. */
  lemma ParseUintCorrect(s: string)
    ensures ParseUint(s).Ok? <==> s != [] && AllDigits(s) && DigitsValue(s) <= MAX_UINT64
    ensures ParseUint(s).Ok? ==> ParseUint(s).value == DigitsValue(s)
    ensures s != [] && AllDigits(s) && ParseUint(s).Err? ==> ParseUint(s).error == ErrRange
  {
    if s != [] {
      assert s[..0] == [];
      ScanUintCorrect(s, 0, 0);
    }
  }

  /** What `%d` writes: a canonical digit string denoting the number. */
  lemma {:induction false} FormatNatCanonical(n: nat)
    ensures Canonical(FormatNat(n)) && DigitsValue(FormatNat(n)) == n
    decreases n
  {
    if n >= 10 {
      FormatNatCanonical(n / 10);
      DigitsValueAppend(FormatNat(n / 10), DigitChar(n % 10));
    }
  }

  /** `%d` is the only way to write a number canonically. */
  lemma {:induction false} CanonicalFormat(s: string)
    requires Canonical(s)
    ensures FormatNat(DigitsValue(s)) == s
    decreases |s|
  {
    if |s| > 1 {
      var p := s[..|s| - 1];
      assert s == p + [s[|s| - 1]];
      DigitsValuePositive(p);
      CanonicalFormat(p);
    }
  }

  lemma FormatNatHasNoChar(n: nat, c: char)
    requires !IsDigit(c)
    ensures c !in FormatNat(n)
  {
    FormatNatCanonical(n);
  }

  /** ParseUint reads back what `%d` writes, for every 64-bit value. */
  lemma ParseUintFormat(n: uint64)
    ensures ParseUint(FormatNat(n)) == Ok(n)
  {
    FormatNatCanonical(n);
    ParseUintCorrect(FormatNat(n));
  }

  /** ParseInt reads back what `%d` writes, for every 64-bit signed value. */
  lemma ParseIntFormat(n: int64)
    ensures ParseInt(FormatInt(n)) == Ok(n)
  {
    var digits := FormatNat(if n < 0 then -(n as int) else n as int);
    FormatNatCanonical(if n < 0 then -(n as int) else n as int);
    ParseUintCorrect(digits);
    if n < 0 {
      assert FormatInt(n)[1..] == digits;
    } else {
      assert FormatInt(n)[0] != '+' && FormatInt(n)[0] != '-';
    }
  }

  /**
   * ParseInt accepts exactly the signed decimal texts in range ("+5", "007" and
   * "-0" among them) and yields their signed value; an all-digit text it rejects
   * is out of range.
   */
  lemma ParseIntCorrect(s: string)
    ensures ParseInt(s).Ok? <==> IntLiteral(s)
    ensures ParseInt(s).Ok? ==>
      ParseInt(s).value == if Negative(s) then -(DigitsValue(Unsigned(s)) as int) else DigitsValue(Unsigned(s))
    ensures Unsigned(s) != [] && AllDigits(Unsigned(s)) && ParseInt(s).Err? ==> ParseInt(s).error == ErrRange
  {
    ParseUintCorrect(Unsigned(s));
  }

  /** Texts ParseInt accepts that `%d` never writes. */
  lemma ParseIntExamples()
    ensures ParseInt("+5") == Ok(5) && ParseInt("007") == Ok(7) && ParseInt("-0") == Ok(0)
  {
    ParseIntCorrect("+5");
    ParseIntCorrect("007");
    ParseIntCorrect("-0");
  }

  /** One past the largest int64, written out, is a range error. */
  lemma ParseIntJustOutOfRange(n: nat)
    requires n == MAX_INT64 + 1
    ensures ParseInt(FormatNat(n)) == Err(ErrRange)
  {
    FormatNatCanonical(n);
    ParseIntCorrect(FormatNat(n));
  }

  /** A sign other than a single leading one is a syntax error. */
  lemma ParseIntRejectsSignOnly(s: string)
    requires s == "+" || s == "-" || s == "+-1" || s == "--1"
    ensures ParseInt(s) == Err(ErrSyntax)
  {
    if |s| == 3 {
      assert !IsDigit(s[1..][0]);
      assert ScanUint(s[1..], 0, 0) == Err(ErrSyntax);
    }
  }
}
