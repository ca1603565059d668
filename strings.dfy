/** Text operations the loader and the queries rely on: Python's `str.strip()`
    and `str.lower()` on column names, the substring test `sub in s`, and the
    search for the regular expression `\d{4}` in the eruption text. */
module Strings {
  import opened Base

  /** The characters Python's `str.isspace()` accepts; `str.strip()` removes these. */
  predicate IsSpace(c: char) {
    c == ' ' || ('\t' <= c <= '\r') || ('\U{1c}' <= c <= '\U{1f}')
    || c == '\U{85}' || c == '\U{a0}' || c == '\U{1680}'
    || ('\U{2000}' <= c <= '\U{200a}') || c == '\U{2028}' || c == '\U{2029}'
    || c == '\U{202f}' || c == '\U{205f}' || c == '\U{3000}'
  }

  /** Neither end of `s` is a whitespace character. */
  predicate Trimmed(s: string) {
    s == [] || (!IsSpace(s[0]) && !IsSpace(s[|s| - 1]))
  }

  /** The number of whitespace characters `s` starts with. */
  function LeadingSpaces(s: string): (n: nat)
    ensures n <= |s|
    ensures forall k :: 0 <= k < n ==> IsSpace(s[k])
    ensures n < |s| ==> !IsSpace(s[n])
  {
    if s != [] && IsSpace(s[0]) then 1 + LeadingSpaces(s[1..]) else 0
  }

  /** The number of whitespace characters `s` ends with. */
  function TrailingSpaces(s: string): (n: nat)
    ensures n <= |s|
    ensures forall k :: |s| - n <= k < |s| ==> IsSpace(s[k])
    ensures n < |s| ==> !IsSpace(s[|s| - n - 1])
  {
    if s != [] && IsSpace(s[|s| - 1]) then 1 + TrailingSpaces(s[..|s| - 1]) else 0
  }

  /** `r` is the infix of `s` starting at `i`, and everything of `s` before
      and after it is whitespace. */
  predicate Surrounds(s: string, r: string, i: int) {
    0 <= i <= |s| - |r| && r == s[i..i + |r|]
    && (forall k :: 0 <= k < i ==> IsSpace(s[k]))
    && (forall k :: i + |r| <= k < |s| ==> IsSpace(s[k]))
  }

  /** Python's `s.strip()`: the infix of `s` with no whitespace at either end,
      obtained by removing only whitespace. */
  function Strip(s: string): (r: string)
    ensures Trimmed(r)
    ensures Surrounds(s, r, LeadingSpaces(s))
  {
    var i := LeadingSpaces(s);
    var t := s[i..];
    var n := TrailingSpaces(t);
    var r := t[..|t| - n];
    assert r == s[i..i + |r|];
    assert r != [] ==> r[0] == t[0] && r[|r| - 1] == t[|t| - n - 1];
    forall k | i + |r| <= k < |s|
      ensures IsSpace(s[k])
    {
      assert s[k] == t[k - i];
    }
    r
  }

  /** A trimmed string is left alone by `strip()`. */
  lemma StripTrimmed(s: string)
    requires Trimmed(s)
    ensures Strip(s) == s
  {
    assert LeadingSpaces(s) == 0;
    assert TrailingSpaces(s) == 0;
  }

  /** Python's `str.lower()` on one character, for the ASCII letters. */
  function LowerChar(c: char): (r: char)
    ensures !('A' <= r <= 'Z')
    ensures IsSpace(r) == IsSpace(c)
    ensures !('A' <= c <= 'Z') ==> r == c
    ensures 'A' <= c <= 'Z' ==> r == "abcdefghijklmnopqrstuvwxyz"[c as int - 'A' as int]
  {
    if 'A' <= c <= 'Z' then (c as int + ('a' as int - 'A' as int)) as char else c
  }

  /** Python's `str.lower()`: each character lowered, one for one. */
  function Lower(s: string): (r: string)
    ensures |r| == |s| && forall i :: 0 <= i < |s| ==> r[i] == LowerChar(s[i])
    ensures forall i :: 0 <= i < |r| ==> !('A' <= r[i] <= 'Z')
  {
    seq(|s|, i requires 0 <= i < |s| => LowerChar(s[i]))
  }

  /** Lowering a string without capitals changes nothing. */
  lemma LowerFixed(s: string)
    requires forall i :: 0 <= i < |s| ==> !('A' <= s[i] <= 'Z')
    ensures Lower(s) == s
  {
  }

  /** The cleaned column name `name.strip().lower()`. */
  function CleanName(name: string): (r: string)
    ensures Trimmed(r) && |r| <= |name|
    ensures forall i :: 0 <= i < |r| ==> !('A' <= r[i] <= 'Z')
    ensures |r| == |Strip(name)| && forall k :: 0 <= k < |r| ==> r[k] == LowerChar(Strip(name)[k])
  {
    var t := Strip(name);
    var c := Lower(t);
    assert c != [] ==> c[0] == LowerChar(t[0]) && c[|c| - 1] == LowerChar(t[|t| - 1]);
    c
  }

  /** The letters of a cleaned name are those of the name after its leading
      whitespace, each lowered. */
  lemma CleanNameLetters(name: string)
    ensures var r := CleanName(name);
            && LeadingSpaces(name) + |r| <= |name|
            && forall k :: 0 <= k < |r| ==> r[k] == LowerChar(name[LeadingSpaces(name) + k])
  {
    var r := CleanName(name);
    var i := LeadingSpaces(name);
    forall k | 0 <= k < |r|
      ensures r[k] == LowerChar(name[i + k])
    {
      assert Strip(name)[k] == name[i + k];
    }
  }

  /** Cleaning a cleaned name again changes nothing. */
  lemma CleanNameShape(name: string)
    ensures CleanName(CleanName(name)) == CleanName(name)
  {
    var t := Strip(name);
    var c := Lower(t);
    assert c != [] ==> c[0] == LowerChar(t[0]) && c[|c| - 1] == LowerChar(t[|t| - 1]);
    StripTrimmed(c);
    LowerFixed(c);
  }

  /** The name list `df.columns.str.strip().str.lower()`. */
  function CleanNames(names: seq<string>): (r: seq<string>)
    ensures |r| == |names|
    ensures forall i :: 0 <= i < |r| ==> Trimmed(r[i]) && r[i] == CleanName(names[i])
  {
    seq(|names|, i requires 0 <= i < |names| => CleanName(names[i]))
  }

  /** Cleaning the cleaned column names again changes nothing. */
  lemma CleanNamesIdempotent(names: seq<string>)
    ensures CleanNames(CleanNames(names)) == CleanNames(names)
  {
    forall i | 0 <= i < |names|
      ensures CleanName(CleanName(names[i])) == CleanName(names[i])
    {
      CleanNameShape(names[i]);
    }
  }

  // ---------------------------------------------------------------------
  // Substring test

  /** `sub` occurs in `s` starting at index `i`. */
  predicate OccursAt(s: string, sub: string, i: int) {
    0 <= i && i + |sub| <= |s| && s[i..i + |sub|] == sub
  }

  /** Python's `sub in s`: case-sensitive substring test, scanning left to right. */
  predicate Contains(s: string, sub: string)
    decreases |s|
  {
    (|sub| <= |s| && s[..|sub|] == sub) || (s != [] && Contains(s[1..], sub))
  }

  /** `Contains` holds exactly when `sub` occurs at some index of `s`. */
  lemma {:induction false} ContainsOccurs(s: string, sub: string)
    ensures Contains(s, sub) <==> exists i :: OccursAt(s, sub, i)
    decreases |s|
  {
    if |sub| <= |s| && s[..|sub|] == sub {
      assert OccursAt(s, sub, 0);
    } else if s != [] {
      ContainsOccurs(s[1..], sub);
      if Contains(s[1..], sub) {
        var i :| OccursAt(s[1..], sub, i);
        assert s[1..][i..i + |sub|] == s[i + 1..i + 1 + |sub|];
        assert OccursAt(s, sub, i + 1);
      } else {
        forall i | 1 <= i <= |s| - |sub|
          ensures !OccursAt(s, sub, i)
        {
          assert s[1..][i - 1..i - 1 + |sub|] == s[i..i + |sub|];
          assert !OccursAt(s[1..], sub, i - 1);
        }
      }
    }
  }

  // ---------------------------------------------------------------------
  // The year pattern `\d{4}`

  predicate IsDigit(c: char) {
    '0' <= c <= '9'
  }

  /** Four consecutive ASCII digits start at index `i` of `s`. */
  predicate RunAt(s: string, i: int) {
    0 <= i && i + 4 <= |s|
    && IsDigit(s[i]) && IsDigit(s[i + 1]) && IsDigit(s[i + 2]) && IsDigit(s[i + 3])
  }

  /** The leftmost index at or after `from` where a run of four digits starts,
      which is where a regular-expression search for `\d{4}` matches. */
  function FirstRunFrom(s: string, from: nat): (r: Option<nat>)
    requires from <= |s|
    ensures r.Some? ==> from <= r.value && RunAt(s, r.value)
                        && forall j :: from <= j < r.value ==> !RunAt(s, j)
    ensures r.None? ==> forall j :: from <= j ==> !RunAt(s, j)
    decreases |s| - from
  {
    if from + 4 > |s| then None
    else if RunAt(s, from) then Some(from)
    else FirstRunFrom(s, from + 1)
  }

  function DigitValue(c: char): (r: nat)
    requires IsDigit(c)
    ensures r <= 9
  {
    c as int - '0' as int
  }

  /** The decimal value of the four digits at index `i`. */
  function RunValue(s: string, i: nat): (r: nat)
    requires RunAt(s, i)
    ensures r <= 9999
  {
    1000 * DigitValue(s[i]) + 100 * DigitValue(s[i + 1])
    + 10 * DigitValue(s[i + 2]) + DigitValue(s[i + 3])
  }

  function DigitChar(d: nat): (c: char)
    requires d <= 9
    ensures IsDigit(c) && DigitValue(c) == d
  {
    ('0' as int + d) as char
  }

  /** `n` written with exactly four digits, zero-padded. */
  function FourDigits(n: nat): (r: string)
    requires n <= 9999
    ensures |r| == 4 && RunAt(r, 0)
  {
    var tens := n / 10;
    var hundreds := tens / 10;
    var thousands := hundreds / 10;
    [DigitChar(thousands), DigitChar(hundreds % 10), DigitChar(tens % 10), DigitChar(n % 10)]
  }

  /** Reading a four-digit run and writing its value back gives the run. */
  lemma RunValueRoundTrip(s: string, i: nat)
    requires RunAt(s, i)
    ensures FourDigits(RunValue(s, i)) == s[i..i + 4]
  {
    var a, b, c, d := DigitValue(s[i]), DigitValue(s[i + 1]), DigitValue(s[i + 2]), DigitValue(s[i + 3]);
    var n := RunValue(s, i);
    assert n == 10 * (100 * a + 10 * b + c) + d;
    assert n / 10 == 100 * a + 10 * b + c && n % 10 == d;
    var tens := n / 10;
    assert tens == 10 * (10 * a + b) + c;
    assert tens / 10 == 10 * a + b && tens % 10 == c;
    var hundreds := tens / 10;
    assert hundreds / 10 == a && hundreds % 10 == b;
    var f := FourDigits(n);
    assert f[0] == s[i] && f[1] == s[i + 1] && f[2] == s[i + 2] && f[3] == s[i + 3];
  }

  /** Writing a value with four digits and reading it back gives the value. */
  lemma FourDigitsRoundTrip(n: nat)
    requires n <= 9999
    ensures RunValue(FourDigits(n), 0) == n
  {
    var tens := n / 10;
    var hundreds := tens / 10;
    var thousands := hundreds / 10;
    assert n == 10 * tens + n % 10;
    assert tens == 10 * hundreds + tens % 10;
    assert hundreds == 10 * thousands + hundreds % 10;
  }

  /** The integer value of the first match of `\d{4}` in `s`, or None when
      there is no match. Never fails. */
  function ExtractYear(s: string): (r: Option<nat>)
    ensures r.None? <==> forall j :: !RunAt(s, j)
    ensures r.Some? ==> r.value <= 9999
  {
    match FirstRunFrom(s, 0)
    case Some(i) => Some(RunValue(s, i))
    case None => None
  }

  /** The extracted year is the value of the leftmost run of four digits. */
  lemma ExtractYearLeftmost(s: string, i: nat)
    requires RunAt(s, i)
    requires forall j :: 0 <= j < i ==> !RunAt(s, j)
    ensures ExtractYear(s) == Some(RunValue(s, i))
  {
    var k := FirstRunFrom(s, 0);
    assert k.Some?;
    assert !(k.value < i) && !(i < k.value);
  }

  /** A text in which no four digits stand side by side yields no year. */
  lemma ExtractYearNoRun(s: string)
    requires forall j :: 0 <= j < |s| ==> !RunAt(s, j)
    ensures ExtractYear(s) == None
  {
  }
}
