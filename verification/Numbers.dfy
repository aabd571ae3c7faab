/** Decimal numbers as the standard library writes and reads them. */
module Numbers {
  import opened Options

  const MAX_INT64 := 0x7fff_ffff_ffff_ffff
  const MAX_UINT64 := 0xffff_ffff_ffff_ffff

  predicate IsDigit(c: char) { '0' <= c <= '9' }

  function Decimal(n: nat): string {
    if n < 10 then [(n + '0' as int) as char] else Decimal(n / 10) + [(n % 10 + '0' as int) as char]
  }

  /** `strconv.ParseUint` in base 10 from `n` on: `None` for a syntax error. Out of range ends
      the reading at once, whatever follows, with the largest value. */
  function ParseDigits(s: string, n: nat): Option<nat> {
    if s == "" then Some(n)
    else if !IsDigit(s[0]) then None
    else
      var m := 10 * n + (s[0] as int - '0' as int);
      if m > MAX_UINT64 then Some(MAX_UINT64) else ParseDigits(s[1..], m)
  }

  /** The number `strconv.ParseInt(s, 10, 64)` returns, its error ignored: 0 for a syntax
      error, the nearest representable number for one out of range. */
  function ParseInt64(s: string): (n: int)
    ensures -MAX_INT64 - 1 <= n <= MAX_INT64
  {
    var negative := s != "" && s[0] == '-';
    var digits := if s != "" && (s[0] == '-' || s[0] == '+') then s[1..] else s;
    if digits == "" then 0 else
    match ParseDigits(digits, 0)
    case None => 0
    case Some(m) =>
      var n := if negative then -(m as int) else m as int;
      if n > MAX_INT64 then MAX_INT64 else if n < -MAX_INT64 - 1 then -MAX_INT64 - 1 else n
  }

  lemma {:induction false} DigitsOnly(n: nat)
    ensures Decimal(n) != "" && forall i | 0 <= i < |Decimal(n)| :: IsDigit(Decimal(n)[i])
  {
    if n >= 10 {
      DigitsOnly(n / 10);
    }
  }

  lemma {:induction false} ParseDigitsAppend(s: string, c: char, n: nat)
    requires IsDigit(c) && (forall i | 0 <= i < |s| :: IsDigit(s[i])) && n <= MAX_UINT64
    ensures ParseDigits(s, n).Some?
    ensures var m := 10 * ParseDigits(s, n).value + (c as int - '0' as int);
            ParseDigits(s + [c], n) == Some(if m > MAX_UINT64 then MAX_UINT64 else m)
  {
    if s == "" {
      assert s + [c] == [c];
      assert [c][1..] == "";
    } else {
      assert (s + [c])[1..] == s[1..] + [c];
      var m := 10 * n + (s[0] as int - '0' as int);
      if m <= MAX_UINT64 {
        ParseDigitsAppend(s[1..], c, m);
      }
    }
  }

  lemma {:induction false} ParseDigitsDecimal(n: nat)
    ensures ParseDigits(Decimal(n), 0) == Some(if n > MAX_UINT64 then MAX_UINT64 else n)
  {
    DigitsOnly(n);
    if n < 10 {
      assert Decimal(n)[1..] == "";
    } else {
      ParseDigitsDecimal(n / 10);
      DigitsOnly(n / 10);
      ParseDigitsAppend(Decimal(n / 10), Decimal(n)[|Decimal(n)| - 1], 0);
    }
  }

  /** Reading back a written number gives it, or the largest one when it does not fit. */
  lemma ParseDecimal(n: nat)
    ensures ParseInt64(Decimal(n)) == if n > MAX_INT64 then MAX_INT64 else n
  {
    DigitsOnly(n);
    ParseDigitsDecimal(n);
  }

  /** `strconv.Atoi`, where an `int` has 64 bits: `None` for any error. */
  function Atoi(s: string): Option<int> {
    var negative := |s| > 0 && s[0] == '-';
    var digits := if |s| > 0 && (s[0] == '-' || s[0] == '+') then s[1..] else s;
    if |digits| == 0 || ParseDigits(digits, 0).None? then None
    else
      var m := ParseDigits(digits, 0).value;
      var n := if negative then -(m as int) else m as int;
      if -MAX_INT64 - 1 <= n <= MAX_INT64 then Some(n) else None
  }

  lemma AtoiDecimal(n: nat)
    ensures Atoi(Decimal(n)) == if n <= MAX_INT64 then Some(n) else None
  {
    DigitsOnly(n);
    ParseDigitsDecimal(n);
  }

  // ---------- what is a number, and which ----------

  predicate IsNumeral(s: string) { |s| > 0 && forall i | 0 <= i < |s| :: IsDigit(s[i]) }

  /** An optional sign and decimal digits. */
  predicate IsSigned(s: string) {
    IsNumeral(s) || (|s| > 0 && s[0] in {'+', '-'} && IsNumeral(s[1..]))
  }

  function Value(digits: string): nat
    requires forall i | 0 <= i < |digits| :: IsDigit(digits[i])
  {
    if |digits| == 0 then 0
    else
      var last := digits[|digits| - 1];
      assert IsDigit(last);
      10 * Value(digits[..|digits| - 1]) + (last as int - '0' as int)
  }

  function SignedValue(s: string): int
    requires IsSigned(s)
  {
    if IsNumeral(s) then Value(s) else if s[0] == '-' then -(Value(s[1..]) as int) else Value(s[1..])
  }

  lemma {:induction false} DigitsRead(s: string)
    requires forall i | 0 <= i < |s| :: IsDigit(s[i])
    ensures ParseDigits(s, 0) == Some(if Value(s) > MAX_UINT64 then MAX_UINT64 else Value(s))
  {
    if |s| > 0 {
      DigitsRead(s[..|s| - 1]);
      ParseDigitsAppend(s[..|s| - 1], s[|s| - 1], 0);
      assert s == s[..|s| - 1] + [s[|s| - 1]];
    }
  }

  /** Anything else is a syntax error, unless the digits before it are already out of range. */
  lemma {:induction false} OtherRead(s: string, n: nat)
    requires exists i :: 0 <= i < |s| && !IsDigit(s[i])
    ensures ParseDigits(s, n).None? || ParseDigits(s, n) == Some(MAX_UINT64)
  {
    if IsDigit(s[0]) {
      assert exists i :: 0 <= i < |s[1..]| && !IsDigit(s[1..][i]) by {
        var i :| 0 <= i < |s| && !IsDigit(s[i]);
        assert !IsDigit(s[1..][i - 1]);
      }
      OtherRead(s[1..], 10 * n + (s[0] as int - '0' as int));
    }
  }

  /** `Atoi` accepts exactly an optional sign and decimal digits that mean a number of 64 bits,
      and returns that number. */
  lemma AtoiExact(s: string)
    ensures Atoi(s) ==
              if IsSigned(s) && -0x8000_0000_0000_0000 <= SignedValue(s) <= 0x7fff_ffff_ffff_ffff
              then Some(SignedValue(s)) else None
  {
    var digits := if |s| > 0 && (s[0] == '-' || s[0] == '+') then s[1..] else s;
    if IsNumeral(digits) { DigitsRead(digits); } else if |digits| > 0 { OtherRead(digits, 0); }
  }

  /** A size that is a number is read as that number, or the nearest of 64 bits. */
  lemma ParseInt64Exact(s: string)
    requires IsSigned(s)
    ensures ParseInt64(s) ==
              if SignedValue(s) > 0x7fff_ffff_ffff_ffff then 0x7fff_ffff_ffff_ffff
              else if SignedValue(s) < -0x8000_0000_0000_0000 then -0x8000_0000_0000_0000
              else SignedValue(s)
  {
    DigitsRead(if IsNumeral(s) then s else s[1..]);
  }
}
