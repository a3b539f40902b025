/** Dotted version comparison for the fleet report. */
module Versions {
  import opened Wrappers
  import opened Text
  import Decimal

  /** The value of a hexadecimal digit. */
  function HexDigit(c: char): Option<nat> {
    if '0' <= c <= '9' then Some((c - '0') as nat)
    else if 'a' <= c <= 'f' then Some((c - 'a') as nat + 10)
    else if 'A' <= c <= 'F' then Some((c - 'A') as nat + 10)
    else None
  }

  /** The leading hexadecimal digits of a text. */
  function LeadingHex(s: string): seq<nat> {
    if s == "" || HexDigit(s[0]).None? then [] else [HexDigit(s[0]).value] + LeadingHex(s[1..])
  }

  function HexValue(digits: seq<nat>): nat {
    if digits == [] then 0 else 16 * HexValue(digits[..|digits| - 1]) + digits[|digits| - 1]
  }

  /** Digits after the sign: hexadecimal behind `0x`, decimal otherwise; 0 without digits. */
  function Magnitude(s: string): nat {
    if |s| >= 2 && s[0] == '0' && s[1] in {'x', 'X'} then HexValue(LeadingHex(s[2..]))
    else Decimal.Parse(Decimal.LeadingDigits(s))
  }

  /** `parseInt(n) || 0`: white space, an optional sign and leading digits; what is no number is 0. */
  function Part(s: string): int
    decreases |s|
  {
    if s != "" && IsBlank(s[0]) then Part(s[1..])
    else if s != "" && s[0] == '-' then 0 - Magnitude(s[1..])
    else if s != "" && s[0] == '+' then Magnitude(s[1..])
    else Magnitude(s)
  }

  function Parts(v: string): seq<int> {
    var texts := Split(v, '.');
    seq(|texts|, k requires 0 <= k < |texts| => Part(texts[k]))
  }

  /** Missing parts count as 0. */
  function At(v: seq<int>, i: nat): int { if i < |v| then v[i] else 0 }

  ghost predicate AgreeBefore(a: seq<int>, b: seq<int>, i: nat) { forall j: nat :: j < i ==> At(a, j) == At(b, j) }

  /** The first part in which the two differ is smaller in a. */
  ghost predicate Older(a: seq<int>, b: seq<int>) {
    exists i: nat :: At(a, i) < At(b, i) && AgreeBefore(a, b, i)
  }

  ghost predicate SameRelease(a: seq<int>, b: seq<int>) { forall i: nat :: At(a, i) == At(b, i) }

  datatype Comparison = Unknown | Behind | UpToDate

  method CompareVersions(current: string, latest: string) returns (r: Comparison)
    ensures r == Unknown <==> current == "" || latest == ""
    ensures r == Behind <==> current != "" && latest != "" && Older(Parts(current), Parts(latest))
  {
    if current == "" || latest == "" {
      return Unknown;
    }
    hide Parts, Older;
    var c, l := Parts(current), Parts(latest);
    var n := if |c| >= |l| then |c| else |l|;
    for i := 0 to n
      invariant AgreeBefore(c, l, i)
    {
      var cv, lv := At(c, i), At(l, i);
      if cv < lv {
        FirstDifferenceDecides(l, c, i);
        return Behind;
      }
      if cv > lv {
        FirstDifferenceDecides(c, l, i);
        return UpToDate;
      }
    }
    AgreeToTheEnd(c, l, n);
    return UpToDate;
  }

  lemma AgreeToTheEnd(a: seq<int>, b: seq<int>, n: nat)
    requires AgreeBefore(a, b, n) && n >= |a| && n >= |b|
    ensures SameRelease(a, b) && !Older(a, b)
  {
    forall i: nat ensures At(a, i) == At(b, i) {
      assert i >= n ==> At(a, i) == 0 && At(b, i) == 0;
    }
  }

  lemma FirstDifferenceDecides(a: seq<int>, b: seq<int>, i: nat)
    requires (AgreeBefore(a, b, i) || AgreeBefore(b, a, i)) && At(a, i) > At(b, i)
    ensures !Older(a, b) && Older(b, a)
  {
    assert AgreeBefore(a, b, i);
    forall k: nat | At(a, k) < At(b, k) ensures !AgreeBefore(a, b, k) {
      assert k > i;
    }
    assert AgreeBefore(b, a, i);
  }

  /** Being older is transitive. */
  lemma OlderIsTransitive(a: seq<int>, b: seq<int>, c: seq<int>)
    requires Older(a, b) && Older(b, c)
    ensures Older(a, c)
  {
    var i: nat :| At(a, i) < At(b, i) && AgreeBefore(a, b, i);
    var k: nat :| At(b, k) < At(c, k) && AgreeBefore(b, c, k);
    var m := if i < k then i else k;
    assert At(a, m) < At(c, m) && AgreeBefore(a, c, m);
  }

  lemma {:induction false} FirstDifference(a: seq<int>, b: seq<int>, i: nat, from: nat) returns (d: nat)
    requires from <= i && At(a, i) != At(b, i) && AgreeBefore(a, b, from)
    ensures At(a, d) != At(b, d) && AgreeBefore(a, b, d)
    decreases i - from
  {
    if At(a, from) != At(b, from) {
      d := from;
    } else {
      d := FirstDifference(a, b, i, from + 1);
    }
  }

  /** Exactly one of three holds: a is older, b is older, or they are the same release (which
      includes versions that differ only in trailing zero parts). */
  lemma {:induction false} Trichotomy(a: seq<int>, b: seq<int>)
    ensures !(Older(a, b) && Older(b, a))
    ensures SameRelease(a, b) <==> !Older(a, b) && !Older(b, a)
    ensures SameRelease(a, a + [0])
  {
    if !SameRelease(a, b) {
      var i: nat :| At(a, i) != At(b, i);
      var d := FirstDifference(a, b, i, 0);
      assert AgreeBefore(b, a, d);
      if At(a, d) > At(b, d) {
        FirstDifferenceDecides(a, b, d);
      } else {
        FirstDifferenceDecides(b, a, d);
      }
    }
  }

  // ---- what the text of a version means ----------------------------------------------------

  /** The text begins with no decimal digit and does not make a number before it a prefix. */
  predicate NoDigitNext(rest: string) { rest == "" || !(Decimal.IsDigit(rest[0]) || rest[0] in {'x', 'X'}) }

  lemma {:induction false} MagnitudeOfNumber(n: nat, rest: string)
    requires NoDigitNext(rest)
    ensures Magnitude(Decimal.Print(n) + rest) == n
  {
    var s := Decimal.Print(n);
    Decimal.ParseOfPrint(n);
    Decimal.LeadingOfNumber(s, rest);
    assert |s| >= 2 ==> Decimal.IsDigit(s[1]);
  }

  /** A part is the number it begins with, behind blanks and a sign, whatever follows; text that
      begins otherwise is 0. */
  lemma {:induction false} PartReadsNumber(n: nat, rest: string)
    requires NoDigitNext(rest)
    ensures Part(Decimal.Print(n) + rest) == n
    ensures Part("+" + (Decimal.Print(n) + rest)) == n
    ensures Part("-" + (Decimal.Print(n) + rest)) == 0 - n
  {
    var s := Decimal.Print(n) + rest;
    MagnitudeOfNumber(n, rest);
    assert Decimal.IsDigit(s[0]);
    assert ("+" + s)[1..] == s && ("-" + s)[1..] == s;
  }

  lemma {:induction false} PartSkipsBlanks(c: char, s: string)
    ensures IsBlank(c) ==> Part([c] + s) == Part(s)
    ensures !IsBlank(c) && !Decimal.IsDigit(c) && c != '+' && c != '-' ==> Part([c] + s) == 0
    ensures Part("") == 0
  {
    assert ([c] + s)[1..] == s;
    assert Decimal.LeadingDigits("") == "";
  }

  const LOWER_HEX := "0123456789abcdef"
  const UPPER_HEX := "0123456789ABCDEF"

  /** Hexadecimal text with the digits of one of the two alphabets. */
  function PrintHex(n: nat, alphabet: string): (s: string)
    requires |alphabet| == 16
    ensures s != ""
  {
    if n < 16 then [alphabet[n]] else PrintHex(n / 16, alphabet) + [alphabet[n % 16]]
  }

  lemma HexAlphabets(d: nat)
    requires d < 16
    ensures HexDigit(LOWER_HEX[d]) == Some(d) && HexDigit(UPPER_HEX[d]) == Some(d)
  {
  }

  lemma NoOtherHexDigits(c: char)
    requires c !in LOWER_HEX && c !in UPPER_HEX
    ensures HexDigit(c).None?
  {
  }

  lemma {:induction false} LeadingHexConcat(s: string, rest: string)
    requires forall i :: 0 <= i < |s| ==> HexDigit(s[i]).Some?
    ensures LeadingHex(s + rest) == LeadingHex(s) + LeadingHex(rest)
  {
    if s == "" {
      assert s + rest == rest;
    } else {
      LeadingHexConcat(s[1..], rest);
      assert (s + rest)[1..] == s[1..] + rest;
    }
  }

  lemma {:induction false} HexReadsBack(n: nat, alphabet: string)
    requires alphabet == LOWER_HEX || alphabet == UPPER_HEX
    ensures forall i :: 0 <= i < |PrintHex(n, alphabet)| ==> HexDigit(PrintHex(n, alphabet)[i]).Some?
    ensures HexValue(LeadingHex(PrintHex(n, alphabet))) == n
  {
    hide HexDigit;
    var last := [alphabet[n % 16]];
    HexAlphabets(n % 16);
    assert LeadingHex(last) == [n % 16] by { assert last[1..] == ""; }
    if n >= 16 {
      HexReadsBack(n / 16, alphabet);
      LeadingHexConcat(PrintHex(n / 16, alphabet), last);
      var digits := LeadingHex(PrintHex(n / 16, alphabet));
      assert (digits + [n % 16])[..|digits|] == digits;
    } else {
      assert [n][..0] == [];
    }
  }

  /** Behind `0x` or `0X` a part is the hexadecimal number, in either case, up to the first other
      character. */
  lemma {:induction false} PartReadsHex(n: nat, alphabet: string, x: char, rest: string)
    requires (alphabet == LOWER_HEX || alphabet == UPPER_HEX) && x in {'x', 'X'}
    requires rest == "" || (rest[0] !in LOWER_HEX && rest[0] !in UPPER_HEX)
    ensures Part("0" + ([x] + (PrintHex(n, alphabet) + rest))) == n
  {
    hide HexDigit;
    var s := PrintHex(n, alphabet) + rest;
    var all := "0" + ([x] + s);
    assert all[0] == '0' && all[1] == x && all[2..] == s;
    HexReadsBack(n, alphabet);
    LeadingHexConcat(PrintHex(n, alphabet), rest);
    if rest != "" { NoOtherHexDigits(rest[0]); }
    assert LeadingHex(rest) == [];
    assert LeadingHex(s) == LeadingHex(PrintHex(n, alphabet));
    assert Part(all) == Magnitude(all);
  }

  function Prints(ns: seq<nat>): seq<string> {
    seq(|ns|, k requires 0 <= k < |ns| => Decimal.Print(ns[k]))
  }

  /** A version written as numbers between dots has exactly these parts. */
  lemma {:induction false} PartsOfDotted(ns: seq<nat>)
    requires ns != []
    ensures |Parts(Join(Prints(ns), "."))| == |ns|
    ensures forall k :: 0 <= k < |ns| ==> Parts(Join(Prints(ns), "."))[k] == ns[k]
  {
    hide Part;
    forall k | 0 <= k < |ns| ensures '.' !in Prints(ns)[k] && Part(Prints(ns)[k]) == ns[k] {
      assert Decimal.AllDigits(Decimal.Print(ns[k])) && !Decimal.IsDigit('.');
      PartReadsNumber(ns[k], "");
      assert Decimal.Print(ns[k]) + "" == Decimal.Print(ns[k]);
    }
    SplitOfJoin(Prints(ns), '.');
    assert "." == ['.'];
  }

  /** Among versions of one length being older is lexicographic order, and a trailing 0 part changes
      nothing. */
  lemma {:induction false} OlderIsLexicographic(a: seq<int>, b: seq<int>)
    ensures |a| == |b| ==> (Older(a, b) <==> exists i :: 0 <= i < |a| && a[i] < b[i] && a[..i] == b[..i])
    ensures Older(a + [0], b) <==> Older(a, b)
    ensures Older(a, b + [0]) <==> Older(a, b)
  {
    assert forall i: nat :: At(a + [0], i) == At(a, i);
    assert forall i: nat :: At(b + [0], i) == At(b, i);
    SameAtSameOrder(a + [0], a, b, b);
    SameAtSameOrder(a, a, b + [0], b);
    if |a| == |b| {
      if i: nat :| At(a, i) < At(b, i) && AgreeBefore(a, b, i) {
        assert i < |a|;
        forall j | 0 <= j < i ensures a[j] == b[j] {
          assert At(a, j) == At(b, j);
        }
        assert a[..i] == b[..i];
      }
      if i :| 0 <= i < |a| && a[i] < b[i] && a[..i] == b[..i] {
        forall j: nat | j < i ensures At(a, j) == At(b, j) {
          assert a[..i][j] == b[..i][j];
        }
        assert At(a, i) < At(b, i) && AgreeBefore(a, b, i);
      }
    }
  }

  lemma {:induction false} SameAtSameOrder(a: seq<int>, a': seq<int>, b: seq<int>, b': seq<int>)
    requires forall i: nat :: At(a, i) == At(a', i)
    requires forall i: nat :: At(b, i) == At(b', i)
    ensures Older(a, b) <==> Older(a', b')
  {
    if i: nat :| At(a, i) < At(b, i) && AgreeBefore(a, b, i) {
      assert At(a', i) < At(b', i) && AgreeBefore(a', b', i);
    }
    if i: nat :| At(a', i) < At(b', i) && AgreeBefore(a', b', i) {
      assert At(a, i) < At(b, i) && AgreeBefore(a, b, i);
    }
  }
}
