/**
  Value-level pieces of Qt that the main window and the profile serializer share:
  possibly-null strings, list-widget items, `QString::number`, `QString::replace`
  and `QFileInfo::fileName`.
 */
module QtCore {

  /** A QString that may be null (`QString::isNull`), or any optional value. */
  datatype Option<T> = None | Some(value: T)

  /** A QListWidgetItem as the front-end sees it: its text and whether its check state is Qt::Checked. */
  datatype ListItem = ListItem(text: string, checked: bool)

  /** Appending two pieces one after the other is appending them joined. */
  lemma AppendInSteps<T>(a: seq<T>, b: seq<T>, c: seq<T>)
    ensures a + b + c == a + (b + c)
  {
  }

  // ---------------------------------------------------------------------------
  // Decimal rendering (QString::number)
  // ---------------------------------------------------------------------------

  predicate IsDigit(c: char) {
    '0' <= c <= '9'
  }

  predicate AllDigits(s: string) {
    forall i :: 0 <= i < |s| ==> IsDigit(s[i])
  }

  function DigitValue(c: char): nat
    requires IsDigit(c)
  {
    c as int - '0' as int
  }

  /** The number a string of decimal digits denotes (reference reading of a rendered number). */
  function DecimalValue(s: string): nat
    requires AllDigits(s)
  {
    if s == [] then 0 else 10 * DecimalValue(s[..|s| - 1]) + DigitValue(s[|s| - 1])
  }

  function Digit(d: nat): (c: char)
    requires d < 10
    ensures IsDigit(c) && DigitValue(c) == d
  {
    ('0' as int + d) as char
  }

  /** QString::number of a non-negative integer: the shortest decimal numeral that reads back as `n`. */
  function NatToString(n: nat): (s: string)
    ensures |s| >= 1 && AllDigits(s)
    ensures DecimalValue(s) == n
    ensures s[0] == '0' ==> s == "0"
  {
    if n < 10 then
      [Digit(n)]
    else
      var prefix := NatToString(n / 10);
      assert (prefix + [Digit(n % 10)])[..|prefix|] == prefix;
      prefix + [Digit(n % 10)]
  }

  /** QString::number of any integer: a minus sign before the numeral of the magnitude when negative. */
  function IntToString(i: int): (s: string)
    ensures |s| >= 1
    ensures i < 0 ==> s[0] == '-' && |s| >= 2 && AllDigits(s[1..]) && DecimalValue(s[1..]) == -i
    ensures i >= 0 ==> AllDigits(s) && DecimalValue(s) == i
  {
    if i < 0 then "-" + NatToString(-i) else NatToString(i)
  }

  /** Rendering is injective: two numbers render alike only when they are equal. */
  lemma NatToStringInjective(a: nat, b: nat)
    requires NatToString(a) == NatToString(b)
    ensures a == b
  {
  }

  // ---------------------------------------------------------------------------
  // QString::replace(before, after, cs)
  // ---------------------------------------------------------------------------

  /** Case folding of a character, ASCII letters only. */
  function FoldCase(c: char): (d: char)
    ensures d == c || ('A' <= c <= 'Z' && 'a' <= d <= 'z')
  {
    if 'A' <= c <= 'Z' then (c as int + 32) as char else c
  }

  predicate CharsMatch(a: char, b: char, ignoreCase: bool) {
    if ignoreCase then FoldCase(a) == FoldCase(b) else a == b
  }

  /** `pattern` occurs at the very start of `s`. */
  predicate MatchesAt(s: string, pattern: string, ignoreCase: bool) {
    |pattern| <= |s| && forall i :: 0 <= i < |pattern| ==> CharsMatch(s[i], pattern[i], ignoreCase)
  }

  /** `pattern` occurs somewhere in `s`. */
  predicate Occurs(s: string, pattern: string, ignoreCase: bool) {
    exists k :: 0 <= k <= |s| && MatchesAt(s[k..], pattern, ignoreCase)
  }

  /**
    QString::replace: every occurrence of `pattern`, found scanning left to right
    without overlap, is replaced; replacement text is not scanned again. A match at
    the start puts the replacement first; a replacement as long as the pattern keeps
    the length; replacing a pattern by itself, case-sensitively, changes nothing.
   */
  function ReplaceAll(s: string, pattern: string, replacement: string, ignoreCase: bool): (r: string)
    requires pattern != []
    ensures MatchesAt(s, pattern, ignoreCase) ==> |replacement| <= |r| && r[..|replacement|] == replacement
    ensures |replacement| == |pattern| ==> |r| == |s|
    ensures !ignoreCase && replacement == pattern ==> r == s
    decreases |s|
  {
    if |s| < |pattern| then s
    else if MatchesAt(s, pattern, ignoreCase) then
      var rest := ReplaceAll(s[|pattern|..], pattern, replacement, ignoreCase);
      assert !ignoreCase ==> s[..|pattern|] == pattern;
      assert s == s[..|pattern|] + s[|pattern|..];
      assert (replacement + rest)[..|replacement|] == replacement;
      replacement + rest
    else
      [s[0]] + ReplaceAll(s[1..], pattern, replacement, ignoreCase)
  }

  /** A string in which the pattern does not occur comes back from ReplaceAll unchanged. */
  lemma {:induction false} ReplaceAllWithoutOccurrence(s: string, pattern: string, replacement: string, ignoreCase: bool)
    requires pattern != []
    requires !Occurs(s, pattern, ignoreCase)
    ensures ReplaceAll(s, pattern, replacement, ignoreCase) == s
    decreases |s|
  {
    if |s| >= |pattern| {
      assert s[0..] == s;
      assert !MatchesAt(s, pattern, ignoreCase);
      forall k | 0 <= k <= |s[1..]|
        ensures !MatchesAt(s[1..][k..], pattern, ignoreCase)
      {
        assert s[1..][k..] == s[k + 1..];
      }
      ReplaceAllWithoutOccurrence(s[1..], pattern, replacement, ignoreCase);
      assert [s[0]] + s[1..] == s;
    }
  }

  /**
    A pattern that starts with a character folding only to itself (such as '<')
    cannot occur in a string that lacks that character.
   */
  lemma FirstCharacterAbsent(s: string, pattern: string, ignoreCase: bool)
    requires pattern != []
    requires !('A' <= pattern[0] <= 'Z') && !('a' <= pattern[0] <= 'z')
    requires pattern[0] !in s
    ensures !Occurs(s, pattern, ignoreCase)
  {
    forall k | 0 <= k <= |s|
      ensures !MatchesAt(s[k..], pattern, ignoreCase)
    {
      if k < |s| {
        assert s[k..][0] == s[k];
      }
    }
  }

  /** A pattern starting with a non-letter never matches at a character other than that first one. */
  predicate StartsWithNonLetter(pattern: string) {
    pattern != [] && !('A' <= pattern[0] <= 'Z') && !('a' <= pattern[0] <= 'z')
  }

  /** Text free of the pattern's first character passes through ReplaceAll unchanged, ahead of the rest. */
  lemma {:induction false} ReplaceAllAfterPrefix(p: string, s: string, pattern: string, replacement: string, ignoreCase: bool)
    requires StartsWithNonLetter(pattern) && pattern[0] !in p
    ensures ReplaceAll(p + s, pattern, replacement, ignoreCase) == p + ReplaceAll(s, pattern, replacement, ignoreCase)
    decreases |p|
  {
    if p == [] {
      assert p + s == s;
    } else if |p + s| < |pattern| {
      assert ReplaceAll(s, pattern, replacement, ignoreCase) == s;
    } else {
      var t := p + s;
      assert t[0] == p[0] && t[1..] == p[1..] + s;
      assert !CharsMatch(t[0], pattern[0], ignoreCase);
      ReplaceAllAfterPrefix(p[1..], s, pattern, replacement, ignoreCase);
      assert [p[0]] + (p[1..] + ReplaceAll(s, pattern, replacement, ignoreCase)) == p + ReplaceAll(s, pattern, replacement, ignoreCase);
    }
  }

  /** A string that does not start with a match keeps its first character and is scanned on from the second. */
  lemma ReplaceAllSkipsFirst(s: string, pattern: string, replacement: string, ignoreCase: bool)
    requires pattern != [] && |pattern| <= |s| && !MatchesAt(s, pattern, ignoreCase)
    ensures ReplaceAll(s, pattern, replacement, ignoreCase) == [s[0]] + ReplaceAll(s[1..], pattern, replacement, ignoreCase)
  {
  }

  /** Past a first character that starts no match, text free of the pattern's first character is kept too. */
  lemma ReplaceAllPastMismatch(c: char, a: string, rest: string, pattern: string, replacement: string, ignoreCase: bool)
    requires StartsWithNonLetter(pattern) && pattern[0] !in a
    requires |pattern| <= 1 + |a| + |rest| && !MatchesAt([c] + (a + rest), pattern, ignoreCase)
    ensures ReplaceAll([c] + (a + rest), pattern, replacement, ignoreCase)
            == [c] + (a + ReplaceAll(rest, pattern, replacement, ignoreCase))
  {
    var s := [c] + (a + rest);
    assert s[0] == c && s[1..] == a + rest;
    ReplaceAllSkipsFirst(s, pattern, replacement, ignoreCase);
    ReplaceAllAfterPrefix(a, rest, pattern, replacement, ignoreCase);
  }

  /**
    One occurrence `token` of the pattern, between two texts free of the pattern's first
    character, becomes the replacement and nothing else changes.
   */
  lemma ReplaceAllSoleOccurrence(p: string, token: string, q: string, pattern: string, replacement: string, ignoreCase: bool)
    requires StartsWithNonLetter(pattern) && pattern[0] !in p && pattern[0] !in q
    requires |token| == |pattern| && MatchesAt(token, pattern, ignoreCase)
    ensures ReplaceAll(p + token + q, pattern, replacement, ignoreCase) == p + replacement + q
  {
    var s := token + q;
    ReplaceAllAfterPrefix(p, s, pattern, replacement, ignoreCase);
    assert p + token + q == p + s;
    assert MatchesAt(s, pattern, ignoreCase) by {
      forall i | 0 <= i < |pattern| ensures CharsMatch(s[i], pattern[i], ignoreCase) {
        assert s[i] == token[i];
      }
    }
    assert s[|pattern|..] == q;
    FirstCharacterAbsent(q, pattern, ignoreCase);
    ReplaceAllWithoutOccurrence(q, pattern, replacement, ignoreCase);
  }

  /**
    A case-sensitive pattern after a `token` that differs from it in its second character
    and holds the pattern's first character only at its start: only the pattern changes.
   */
  lemma ReplaceAllLaterOccurrence(token: string, m: string, q: string, pattern: string, replacement: string)
    requires StartsWithNonLetter(pattern) && |pattern| >= 2 && |token| >= 2 && token[1] != pattern[1]
    requires pattern[0] !in token[1..] && pattern[0] !in m && pattern[0] !in q
    ensures ReplaceAll(token + m + pattern + q, pattern, replacement, false) == token + m + replacement + q
  {
    var c, a := token[0], token[1..] + m;
    SplitFirst(token, m, pattern + q);
    SplitFirst(token, m, replacement + q);
    AppendInSteps(token, m, pattern);
    AppendInSteps(token + m, pattern, q);
    AppendInSteps(token, m, replacement);
    AppendInSteps(token + m, replacement, q);
    ReplaceAllPastMismatch(c, a, pattern + q, pattern, replacement, false);
    ReplaceAllAtStart(pattern, q, replacement);
  }

  /** A token's first character, then the rest of the token and what follows. */
  lemma SplitFirst<T>(token: seq<T>, m: seq<T>, rest: seq<T>)
    requires |token| >= 2
    ensures token + m + rest == [token[0]] + (token[1..] + m + rest)
    ensures (token + m + rest)[1] == token[1]
  {
    assert token == [token[0]] + token[1..];
  }

  /** A case-sensitive pattern at the start of a text free of its first character: only the start changes. */
  lemma ReplaceAllAtStart(pattern: string, q: string, replacement: string)
    requires StartsWithNonLetter(pattern) && pattern[0] !in q
    ensures ReplaceAll(pattern + q, pattern, replacement, false) == replacement + q
  {
    assert MatchesAt(pattern, pattern, false);
    ReplaceAllSoleOccurrence([], pattern, q, pattern, replacement, false);
    assert [] + pattern + q == pattern + q && [] + replacement + q == replacement + q;
  }

  // ---------------------------------------------------------------------------
  // QFileInfo::fileName
  // ---------------------------------------------------------------------------

  /** QFileInfo::fileName: the last component of a path, the part after its last '/'. */
  function FileName(path: string): (name: string)
    ensures '/' !in name
    ensures |name| <= |path| && name == path[|path| - |name|..]
    ensures |name| < |path| ==> path[|path| - |name| - 1] == '/'
  {
    if path == [] || path[|path| - 1] == '/' then []
    else
      var init, last := path[..|path| - 1], path[|path| - 1];
      var name := FileName(init);
      assert init[|init| - |name|..] + [last] == path[|path| - |name| - 1..];
      assert |name| < |init| ==> path[|path| - |name| - 2] == init[|init| - |name| - 1];
      name + [last]
  }
}
