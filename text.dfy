/** The string operations the page relies on: `toLowerCase` (ASCII letters
    only), `includes`, and the decimal rendering of a whole number. */
module Text {

  predicate IsUpper(c: char) { 'A' <= c <= 'Z' }

  function LowerChar(c: char): (d: char)
    ensures !IsUpper(d)
    ensures IsUpper(c) ==> d as int == c as int + 32
    ensures !IsUpper(c) ==> d == c
  {
    if IsUpper(c) then (c as int + 32) as char else c
  }

  /** `s.toLowerCase()` restricted to ASCII: every upper-case letter becomes
      its lower-case partner and nothing else changes. */
  function Lower(s: string): (r: string)
    ensures |r| == |s|
    ensures forall i :: 0 <= i < |s| ==> !IsUpper(r[i])
  {
    seq(|s|, i requires 0 <= i < |s| => LowerChar(s[i]))
  }

  /** Lower-casing is idempotent. */
  lemma LowerIdempotent(s: string)
    ensures Lower(Lower(s)) == Lower(s)
  {
    var l := Lower(s);
    assert forall i :: 0 <= i < |l| ==> Lower(l)[i] == l[i];
  }

  /** Strings that differ only in letter case lower-case to the same string. */
  lemma LowerIgnoresCase(s: string, t: string)
    requires |s| == |t|
    requires forall i :: 0 <= i < |s| ==> LowerChar(s[i]) == LowerChar(t[i])
    ensures Lower(s) == Lower(t)
  {
  }

  predicate StartsWith(s: string, p: string) {
    |p| <= |s| && s[..|p|] == p
  }

  /** q occurs in s starting at index i. */
  predicate OccursAt(s: string, q: string, i: int) {
    0 <= i && i + |q| <= |s| && s[i..i + |q|] == q
  }

  /** `s.includes(q)`, searching from each position in turn: it holds
      exactly when q occurs at some position of s. */
  predicate Contains(s: string, q: string): (found: bool)
    ensures found <==> exists i :: OccursAt(s, q, i)
    decreases |s|
  {
    if StartsWith(s, q) then
      assert OccursAt(s, q, 0);
      true
    else if s == [] then false
    else
      ShiftOccurrences(s, q);
      Contains(s[1..], q)
  }

  /** The occurrences in the tail are the occurrences after position 0. */
  lemma ShiftOccurrences(s: string, q: string)
    requires s != [] && !StartsWith(s, q)
    ensures (exists i :: OccursAt(s[1..], q, i)) <==> (exists i :: OccursAt(s, q, i))
  {
    if exists i :: OccursAt(s[1..], q, i) {
      var i :| OccursAt(s[1..], q, i);
      TailSlice(s, i + 1, |q|);
      assert OccursAt(s, q, i + 1);
    }
    if exists i :: OccursAt(s, q, i) {
      var i :| OccursAt(s, q, i);
      assert i != 0;
      TailSlice(s, i, |q|);
      assert OccursAt(s[1..], q, i - 1);
    }
  }

  /** A slice of the tail is the slice of the whole one position later. */
  lemma TailSlice(s: string, i: int, n: nat)
    requires 1 <= i && i + n <= |s|
    ensures s[1..][i - 1..i - 1 + n] == s[i..i + n]
  {
    var t := s[1..];
    assert forall k :: i - 1 <= k < i - 1 + n ==> t[k] == s[k + 1];
  }

  /** The empty string occurs in every string. */
  lemma ContainsEmpty(s: string)
    ensures Contains(s, "")
  {
    assert StartsWith(s, "");
  }

  function DigitChar(d: nat): (c: char)
    requires d < 10
    ensures '0' <= c <= '9'
  {
    "0123456789"[d]
  }

  function DigitValue(c: char): int { c as int - '0' as int }

  predicate IsDigit(c: char) { '0' <= c <= '9' }

  /** `n.toString()` for a whole number n >= 0: its decimal digits, most
      significant first, without leading zeros. */
  function NatToString(n: nat): (s: string)
    ensures |s| >= 1
    ensures forall i :: 0 <= i < |s| ==> IsDigit(s[i])
    ensures s[0] == '0' ==> n == 0 && s == "0"
  {
    if n < 10 then [DigitChar(n)] else NatToString(n / 10) + [DigitChar(n % 10)]
  }

  /** `n.toString()` for any integer: a minus sign before the digits of -n. */
  function IntToString(n: int): (s: string)
    ensures |s| >= 1
    ensures n < 0 <==> s[0] == '-'
  {
    if n < 0 then "-" + NatToString(-n) else NatToString(n)
  }

  /** The number a string of decimal digits denotes. */
  function ParseDecimal(s: string): int
  {
    if s == [] then 0 else 10 * ParseDecimal(s[..|s| - 1]) + DigitValue(s[|s| - 1])
  }

  lemma DigitRoundTrip(d: nat)
    requires d < 10
    ensures DigitValue(DigitChar(d)) == d
  {
  }

  /** Reading back the digits of n gives n. */
  lemma {:induction false} ParseNatToString(n: nat)
    ensures ParseDecimal(NatToString(n)) == n
  {
    var s := NatToString(n);
    if n < 10 {
      DigitRoundTrip(n);
      assert s[..0] == [];
    } else {
      ParseNatToString(n / 10);
      DigitRoundTrip(n % 10);
      assert s[..|s| - 1] == NatToString(n / 10);
    }
  }

  /** A decimal numeral as `toString` writes it: digits only, and no leading
      zero unless the numeral is "0". */
  predicate IsNumeral(s: string) {
    |s| >= 1 && (forall i :: 0 <= i < |s| ==> IsDigit(s[i])) && (s[0] == '0' ==> s == "0")
  }

  /** `toString` writes numerals, and they read back as the number. */
  lemma NatToStringNumeral(n: nat)
    ensures IsNumeral(NatToString(n)) && ParseDecimal(NatToString(n)) == n
  {
    ParseNatToString(n);
  }

  lemma DigitCharOfValue(c: char)
    requires IsDigit(c)
    ensures 0 <= DigitValue(c) < 10 && DigitChar(DigitValue(c)) == c
  {
    var k := DigitValue(c);
    assert "0123456789"[k] as int == '0' as int + k by {
      assert forall j :: 0 <= j < 10 ==> "0123456789"[j] as int == '0' as int + j;
    }
  }

  /** A string of digits that does not start with '0' denotes at least 1. */
  lemma {:induction false} LeadingDigitPositive(s: string)
    requires |s| >= 1 && (forall i :: 0 <= i < |s| ==> IsDigit(s[i])) && s[0] != '0'
    ensures ParseDecimal(s) >= 1
  {
    var init := s[..|s| - 1];
    DigitCharOfValue(s[|s| - 1]);
    if |s| > 1 {
      LeadingDigitPositive(init);
    } else {
      DigitCharOfValue(s[0]);
      assert init == [];
    }
  }

  /** A numeral is fixed by the number it denotes: it is exactly the text
      `toString` writes for that number. */
  lemma {:induction false} NumeralUnique(s: string)
    requires IsNumeral(s)
    ensures ParseDecimal(s) >= 0 && s == NatToString(ParseDecimal(s))
  {
    var init, last := s[..|s| - 1], s[|s| - 1];
    DigitCharOfValue(last);
    if |s| == 1 {
      assert init == [];
      assert s == [last];
    } else {
      assert IsNumeral(init);
      NumeralUnique(init);
      LeadingDigitPositive(init);
      var n := ParseDecimal(s);
      assert n == 10 * ParseDecimal(init) + DigitValue(last);
      assert n / 10 == ParseDecimal(init) && n % 10 == DigitValue(last);
      assert s == init + [last];
    }
  }

  /** Different numbers are written differently. */
  lemma NatToStringInjective(m: nat, n: nat)
    requires NatToString(m) == NatToString(n)
    ensures m == n
  {
    ParseNatToString(m);
    ParseNatToString(n);
  }
}
