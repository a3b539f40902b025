/** Decimal text of natural numbers, as JavaScript prints and parses it. */
module Decimal {
  import opened Text

  predicate IsDigit(c: char) { '0' <= c <= '9' }

  predicate AllDigits(s: string) {
    forall i :: 0 <= i < |s| ==> IsDigit(s[i])
  }

  function DigitChar(d: nat): char
    requires d < 10
  {
    '0' + d as char
  }

  function Print(n: nat): (s: string)
    ensures |s| >= 1 && AllDigits(s)
  {
    if n < 10 then [DigitChar(n)] else Print(n / 10) + [DigitChar(n % 10)]
  }

  function Parse(s: string): nat
    requires AllDigits(s)
  {
    if s == "" then 0 else 10 * Parse(s[..|s| - 1]) + (s[|s| - 1] - '0') as nat
  }

  lemma {:induction false} ParseOfPrint(n: nat)
    ensures Parse(Print(n)) == n
  {
    if n >= 10 {
      ParseOfPrint(n / 10);
      assert Print(n)[..|Print(n)| - 1] == Print(n / 10);
    }
  }

  // ---- parseInt ---------------------------------------------------------------------------

  datatype Number = NaN | Num(n: int)

  function LeadingDigits(s: string): (d: string)
    ensures AllDigits(d)
  {
    if s != "" && IsDigit(s[0]) then [s[0]] + LeadingDigits(s[1..]) else ""
  }

  function DigitsValue(s: string): Number {
    var d := LeadingDigits(s); if d == "" then NaN else Num(Parse(d))
  }

  function Negated(x: Number): Number {
    if x.Num? then Num(0 - x.n) else NaN
  }

  /** `parseInt(s, 10)`: white space, a sign, then the leading digits; no digits, no number. */
  function ParseInt10(s: string): Number
    decreases |s|
  {
    if s != "" && IsBlank(s[0]) then ParseInt10(s[1..])
    else if s != "" && s[0] == '-' then Negated(DigitsValue(s[1..]))
    else if s != "" && s[0] == '+' then DigitsValue(s[1..])
    else DigitsValue(s)
  }

  lemma {:induction false} LeadingOfDigits(s: string)
    requires AllDigits(s)
    ensures LeadingDigits(s) == s
  {
    if s != "" {
      LeadingOfDigits(s[1..]);
      assert [s[0]] + s[1..] == s;
    }
  }

  /** A printed number is read back. */
  lemma {:induction false} ParseInt10OfPrint(n: nat)
    ensures ParseInt10(Print(n)) == Num(n)
  {
    ParseOfPrint(n);
    LeadingOfDigits(Print(n));
    assert IsDigit(Print(n)[0]);
  }

  lemma {:induction false} LeadingOfNumber(s: string, rest: string)
    requires AllDigits(s) && (rest == "" || !IsDigit(rest[0]))
    ensures LeadingDigits(s + rest) == s
  {
    if s == "" {
      assert s + rest == rest;
    } else {
      LeadingOfNumber(s[1..], rest);
      assert (s + rest)[1..] == s[1..] + rest && [s[0]] + s[1..] == s;
    }
  }

  /** `parseInt` reads the number a text begins with, behind blanks and one sign, whatever follows;
      text that begins otherwise is no number. */
  lemma {:induction false} ParseInt10Reads(n: nat, rest: string, c: char, s: string)
    requires rest == "" || !IsDigit(rest[0])
    ensures ParseInt10(Print(n) + rest) == Num(n)
    ensures ParseInt10("+" + (Print(n) + rest)) == Num(n)
    ensures ParseInt10("-" + (Print(n) + rest)) == Num(0 - n)
    ensures IsBlank(c) ==> ParseInt10([c] + s) == ParseInt10(s)
    ensures !IsBlank(c) && !IsDigit(c) && c != '+' && c != '-' ==> ParseInt10([c] + s) == NaN
    ensures ParseInt10("") == NaN
  {
    var number := Print(n) + rest;
    ParseOfPrint(n);
    LeadingOfNumber(Print(n), rest);
    assert IsDigit(number[0]);
    assert ("+" + number)[1..] == number && ("-" + number)[1..] == number && ([c] + s)[1..] == s;
    assert LeadingDigits("") == "";
  }
}
