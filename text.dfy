/**
 * The string operations of Python that the parser and the store rely on:
 * decimal digits and `str(n)`, `str.find`, `str.split(sep)`, `re.sub` of a
 * literal pattern, `str.join` and `str.strip()`.
 */
module Text {
  import opened Wrappers

  predicate IsDigitChar(c: char) {
    '0' <= c <= '9'
  }

  /** A non-empty run of ASCII decimal digits. */
  predicate IsDigits(s: string) {
    |s| > 0 && forall i :: 0 <= i < |s| ==> IsDigitChar(s[i])
  }

  function DigitValue(c: char): (n: nat)
    requires IsDigitChar(c)
    ensures n < 10
  {
    (c as int) - ('0' as int)
  }

  function DigitChar(n: nat): (c: char)
    requires n < 10
    ensures IsDigitChar(c) && DigitValue(c) == n
  {
    ('0' as int + n) as char
  }

  /** The value of a string of decimal digits, most significant first. */
  function DigitsValue(s: string): nat
    requires forall i :: 0 <= i < |s| ==> IsDigitChar(s[i])
  {
    if s == [] then 0 else DigitsValue(s[..|s| - 1]) * 10 + DigitValue(s[|s| - 1])
  }

  /** Python's `str(n)` for a non-negative integer: shortest decimal form. */
  function NatToString(n: nat): (s: string)
    ensures IsDigits(s)
    ensures n < 10 <==> |s| == 1
    ensures n < 100 <==> |s| <= 2
    ensures n < 1000 <==> |s| <= 3
    ensures |s| > 1 ==> s[0] != '0'
  {
    if n < 10 then [DigitChar(n)]
    else
      var hi := NatToString(n / 10);
      assert hi[0] != '0' by {
        if |hi| == 1 { assert hi[0] == DigitChar(n / 10); }
      }
      hi + [DigitChar(n % 10)]
  }

  /** Reading back what `NatToString` writes gives the number. */
  lemma {:induction false} NatToStringRoundTrip(n: nat)
    ensures DigitsValue(NatToString(n)) == n
  {
    if n >= 10 {
      var s := NatToString(n);
      assert s[..|s| - 1] == NatToString(n / 10);
      NatToStringRoundTrip(n / 10);
    }
  }

  /** Python's `str(i)` for any integer. */
  function IntToString(i: int): (s: string)
    ensures |s| > 0 && s[|s| - 1] != 'k'
    ensures i >= 0 ==> IsDigits(s) && DigitsValue(s) == i
    ensures i < 0 ==> s[0] == '-' && IsDigits(s[1..]) && DigitsValue(s[1..]) == -i
    ensures i >= 0 && |s| > 1 ==> s[0] != '0'
    ensures i < 0 ==> s[1] != '0'
  {
    if i < 0 then
      NatToStringRoundTrip(-i);
      "-" + NatToString(-i)
    else
      NatToStringRoundTrip(i);
      NatToString(i)
  }

  /** Two digits with a leading zero (`%02d`, as `strftime('%m')` writes). */
  function Pad2(n: nat): (s: string)
    requires n < 100
    ensures |s| == 2 && IsDigits(s) && DigitsValue(s) == n
  {
    var s := [DigitChar(n / 10), DigitChar(n % 10)];
    assert s[..1][..0] == [];
    assert DigitsValue(s[..1]) == n / 10;
    s
  }

  /** Four digits with leading zeros (`%04d`). */
  function Pad4(n: nat): (s: string)
    requires n < 10000
    ensures |s| == 4 && IsDigits(s) && DigitsValue(s) == n
  {
    var hi, lo := Pad2(n / 100), Pad2(n % 100);
    AppendTwoDigits(hi, lo);
    hi + lo
  }

  /** Two more digits multiply the value by a hundred and add theirs. */
  lemma AppendTwoDigits(s: string, t: string)
    requires IsDigits(s) && |t| == 2 && IsDigits(t)
    ensures IsDigits(s + t) && DigitsValue(s + t) == DigitsValue(s) * 100 + DigitsValue(t)
  {
    var u, v := s + t, s + t[..1];
    assert u[..|u| - 1] == v && u[|u| - 1] == t[1];
    assert v[..|s|] == s && v[|s|] == t[0];
    assert DigitsValue(v) == DigitsValue(s) * 10 + DigitValue(t[0]);
    assert t[..1][..0] == [];
    assert DigitsValue(t[..1]) == DigitValue(t[0]);
  }

  // ---------------------------------------------------------------------
  // Searching, splitting, joining, replacing

  predicate OccursAt(s: string, sep: string, j: int) {
    0 <= j && j + |sep| <= |s| && s[j..j + |sep|] == sep
  }

  predicate NoOccurrence(s: string, sep: string) {
    forall j :: 0 <= j <= |s| - |sep| ==> !OccursAt(s, sep, j)
  }

  /** Python's `s.find(sep)` for a non-empty separator: the first index where `sep` occurs. */
  function IndexOf(s: string, sep: string): (r: Option<nat>)
    requires |sep| > 0
    ensures r.Some? ==> OccursAt(s, sep, r.value)
    ensures r.Some? ==> forall j :: 0 <= j < r.value ==> !OccursAt(s, sep, j)
    ensures r.None? <==> NoOccurrence(s, sep)
    decreases |s|
  {
    if |s| < |sep| then None
    else if s[..|sep|] == sep then Some(0)
    else
      ShiftOccurrence(s, sep);
      match IndexOf(s[1..], sep)
      case None => None
      case Some(j) => Some(j + 1)
  }

  lemma ShiftOccurrence(s: string, sep: string)
    requires |s| > 0
    ensures forall j :: 1 <= j ==> (OccursAt(s, sep, j) <==> OccursAt(s[1..], sep, j - 1))
  {
    forall j | 1 <= j
      ensures OccursAt(s, sep, j) <==> OccursAt(s[1..], sep, j - 1)
    {
      if j + |sep| <= |s| {
        assert s[1..][j - 1..j - 1 + |sep|] == s[j..j + |sep|];
      }
    }
  }

  /** Python's `sep.join(parts)`. */
  function Join(parts: seq<string>, sep: string): string {
    if parts == [] then ""
    else if |parts| == 1 then parts[0]
    else parts[0] + sep + Join(parts[1..], sep)
  }

  /**
   * Python's `s.split(sep)` for a non-empty separator: cut at every
   * occurrence, scanning left to right. The pieces joined back with `sep`
   * give `s`, and no piece contains `sep`. Those two facts determine the
   * pieces only for a separator that cannot overlap itself, as `", "`,
   * `" "`, `"-"` and `"\n"` cannot; for one that can (`"aa"` in `"aaa"`),
   * the left-to-right scan is what picks the cut.
   */
  function Split(s: string, sep: string): (parts: seq<string>)
    requires |sep| > 0
    ensures |parts| >= 1
    ensures Join(parts, sep) == s
    ensures forall k :: 0 <= k < |parts| ==> NoOccurrence(parts[k], sep)
    decreases |s|
  {
    match IndexOf(s, sep)
    case None => [s]
    case Some(i) =>
      var rest := Split(s[i + |sep|..], sep);
      assert s == s[..i] + sep + s[i + |sep|..];
      forall j | 0 <= j <= i - |sep| ensures !OccursAt(s[..i], sep, j) {
        assert !OccursAt(s, sep, j);
        assert s[..i][j..j + |sep|] == s[j..j + |sep|];
      }
      [s[..i]] + rest
  }

  /** A string without the separator's first character is a single piece. */
  lemma SplitWhole(s: string, sep: string)
    requires |sep| > 0 && sep[0] !in s
    ensures Split(s, sep) == [s]
  {
    NoOccurrenceOfFirst(s, sep);
  }

  lemma NoOccurrenceOfFirst(s: string, sep: string)
    requires |sep| > 0 && sep[0] !in s
    ensures NoOccurrence(s, sep)
  {
    forall j | 0 <= j <= |s| - |sep| ensures !OccursAt(s, sep, j) {
      assert s[j..j + |sep|][0] == s[j];
      assert s[j] in s;
    }
  }

  /** Cutting `a + sep + b` where `a` has no separator start: `a` is the first piece. */
  lemma SplitConcat(a: string, sep: string, b: string)
    requires |sep| > 0 && sep[0] !in a
    ensures Split(a + sep + b, sep) == [a] + Split(b, sep)
  {
    var s := a + sep + b;
    assert OccursAt(s, sep, |a|) by {
      assert s[|a|..|a| + |sep|] == sep;
    }
    forall j | 0 <= j < |a| && j + |sep| <= |s|
      ensures !OccursAt(s, sep, j)
    {
      assert s[j..j + |sep|][0] == a[j];
      assert a[j] in a;
    }
    assert IndexOf(s, sep) == Some(|a|);
    assert s[..|a|] == a;
    assert s[|a| + |sep|..] == b;
  }

  /** Three fields joined by a one-character separator they do not contain split back apart. */
  lemma SplitThree(a: string, b: string, c: string, sep: char)
    requires sep !in a && sep !in b && sep !in c
    ensures Split(a + [sep] + b + [sep] + c, [sep]) == [a, b, c]
  {
    var tail := b + [sep] + c;
    SplitWhole(c, [sep]);
    SplitConcat(b, [sep], c);
    SplitConcat(a, [sep], tail);
    Regroup(a, [sep], b, [sep], c);
  }

  lemma Regroup(a: string, s: string, b: string, t: string, c: string)
    ensures a + s + b + t + c == a + s + (b + t + c)
  {
  }

  /**
   * `re.sub(pat, rep, s)` for a literal, non-empty pattern: every occurrence,
   * scanning left to right without overlaps, becomes `rep`. This is the same
   * as `rep.join(s.split(pat))`.
   */
  function Replace(s: string, pat: string, rep: string): (r: string)
    requires |pat| > 0
    ensures r == Join(Split(s, pat), rep)
    decreases |s|
  {
    if |s| < |pat| then
      assert NoOccurrence(s, pat);
      s
    else if s[..|pat|] == pat then
      assert OccursAt(s, pat, 0);
      assert s == s[..0] + pat + s[|pat|..];
      var tail := Replace(s[|pat|..], pat, rep);
      rep + tail
    else
      var tail := Replace(s[1..], pat, rep);
      ShiftOccurrence(s, pat);
      ReplaceStep(s, pat, rep);
      [s[0]] + tail
  }

  /** One character that does not start a match is copied ahead of the rest. */
  lemma ReplaceStep(s: string, pat: string, rep: string)
    requires |pat| > 0 && |s| >= |pat| && s[..|pat|] != pat
    ensures Join(Split(s, pat), rep) == [s[0]] + Join(Split(s[1..], pat), rep)
  {
    ShiftOccurrence(s, pat);
    assert !OccursAt(s, pat, 0);
    match IndexOf(s[1..], pat)
    case None =>
      assert IndexOf(s, pat) == None;
      assert s == [s[0]] + s[1..];
    case Some(j) =>
      assert IndexOf(s, pat) == Some(j + 1);
      ReplaceStepAt(s, pat, rep, j);
  }

  lemma ReplaceStepAt(s: string, pat: string, rep: string, j: nat)
    requires |pat| > 0 && |s| > 0
    requires IndexOf(s, pat) == Some(j + 1) && IndexOf(s[1..], pat) == Some(j)
    ensures Join(Split(s, pat), rep) == [s[0]] + Join(Split(s[1..], pat), rep)
  {
    SplitAt(s, pat, j + 1);
    SplitAt(s[1..], pat, j);
    DropShift(s, j + 1 + |pat|);
    HeadShift(s, j + 1);
    JoinStep(s[0], s[1..][..j], Split(s[j + 1 + |pat|..], pat), rep);
  }

  lemma HeadShift(s: string, k: nat)
    requires 1 <= k <= |s|
    ensures s[..k] == [s[0]] + s[1..][..k - 1]
  {
  }

  /** Joining pieces whose first piece starts with `c`. */
  lemma JoinStep(c: char, tail: string, rest: seq<string>, sep: string)
    requires |rest| > 0
    ensures Join([[c] + tail] + rest, sep) == [c] + Join([tail] + rest, sep)
  {
    JoinCons([c] + tail, rest, sep);
    JoinCons(tail, rest, sep);
    ConsAssoc(c, tail, sep, Join(rest, sep));
  }

  lemma DropShift(s: string, k: nat)
    requires 1 <= k <= |s|
    ensures s[k..] == s[1..][k - 1..]
  {
  }

  lemma ConsAssoc(c: char, a: string, b: string, d: string)
    ensures [c] + a + b + d == [c] + (a + b + d)
  {
  }

  /** Cutting at the first occurrence. */
  lemma SplitAt(s: string, sep: string, i: nat)
    requires |sep| > 0 && IndexOf(s, sep) == Some(i)
    ensures Split(s, sep) == [s[..i]] + Split(s[i + |sep|..], sep)
  {
  }

  lemma JoinCons(head: string, rest: seq<string>, sep: string)
    requires |rest| > 0
    ensures Join([head] + rest, sep) == head + sep + Join(rest, sep)
  {
    assert ([head] + rest)[1..] == rest;
  }

  /** A string without the pattern's first character is left as it is. */
  lemma ReplaceAbsent(s: string, pat: string, rep: string)
    requires |pat| > 0 && pat[0] !in s
    ensures Replace(s, pat, rep) == s
  {
    SplitWhole(s, pat);
  }

  /** Replacing in `a + pat + b` where `a` has no pattern start. */
  lemma ReplaceConcat(a: string, pat: string, rep: string, b: string)
    requires |pat| > 0 && pat[0] !in a
    ensures Replace(a + pat + b, pat, rep) == a + rep + Replace(b, pat, rep)
  {
    SplitConcat(a, pat, b);
    var rest := Split(b, pat);
    assert Split(a + pat + b, pat) == [a] + rest;
    assert ([a] + rest)[1..] == rest;
  }

  // ---------------------------------------------------------------------
  // Whitespace

  /** Python's `str.isspace()` for one character. */
  predicate IsSpace(c: char) {
    c == ' ' || ('\t' <= c <= '\r') || ('\U{1c}' <= c <= '\U{1f}')
    || c == '\U{85}' || c == '\U{a0}' || c == '\U{1680}'
    || ('\U{2000}' <= c <= '\U{200a}') || c == '\U{2028}' || c == '\U{2029}'
    || c == '\U{202f}' || c == '\U{205f}' || c == '\U{3000}'
  }

  /** The number of whitespace characters `s` starts with. */
  function LeadingSpace(s: string): (n: nat)
    ensures n <= |s|
    ensures forall i :: 0 <= i < n ==> IsSpace(s[i])
    ensures n < |s| ==> !IsSpace(s[n])
  {
    if |s| > 0 && IsSpace(s[0]) then 1 + LeadingSpace(s[1..]) else 0
  }

  /** The number of whitespace characters `s` ends with. */
  function TrailingSpace(s: string): (n: nat)
    ensures n <= |s|
    ensures forall i :: |s| - n <= i < |s| ==> IsSpace(s[i])
    ensures n < |s| ==> !IsSpace(s[|s| - n - 1])
  {
    if |s| > 0 && IsSpace(s[|s| - 1]) then 1 + TrailingSpace(s[..|s| - 1]) else 0
  }

  /**
   * Python's `s.strip()`: the slice of `s` between its leading and its
   * trailing whitespace. The result is empty exactly when `s` is all
   * whitespace, and a string with no whitespace at either end is unchanged.
   */
  function Strip(s: string): (r: string)
    ensures var lo := LeadingSpace(s);
      && lo + |r| <= |s| && r == s[lo..lo + |r|]
      && (forall i :: lo + |r| <= i < |s| ==> IsSpace(s[i]))
    ensures r == [] <==> forall i :: 0 <= i < |s| ==> IsSpace(s[i])
    ensures r != [] ==> !IsSpace(r[0]) && !IsSpace(r[|r| - 1])
    ensures |s| > 0 && !IsSpace(s[0]) && !IsSpace(s[|s| - 1]) ==> r == s
  {
    var lo := LeadingSpace(s);
    if lo == |s| then []
    else
      var hi := |s| - TrailingSpace(s);
      assert lo < hi by {
        assert !IsSpace(s[lo]);
      }
      s[lo..hi]
  }
}
