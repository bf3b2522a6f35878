/** String helpers shared by the models: the .NET string operations the
    source relies on (IsNullOrWhiteSpace, ordinal IndexOf, Contains,
    and ordinal case-insensitive comparison), and StartsWith, which the
    models read as ordinal. */
module Text {

  datatype Option<+T> = None | Some(value: T)

  /** Char.IsWhiteSpace, restricted to the ASCII and Latin-1 range. */
  predicate IsWhiteSpace(c: char) {
    c == ' ' || c == '\t' || c == '\n' || c == '\r' || c == '\U{000B}' || c == '\U{000C}'
    || c == '\U{0085}' || c == '\U{00A0}'
  }

  /** string.IsNullOrWhiteSpace; a null string is modelled as "". */
  predicate IsBlank(s: string) {
    |s| == 0 || (IsWhiteSpace(s[0]) && IsBlank(s[1..]))
  }

  /** A string is blank exactly when every character is white space. */
  lemma {:induction false} IsBlankMeansAllWhiteSpace(s: string)
    ensures IsBlank(s) <==> forall i :: 0 <= i < |s| ==> IsWhiteSpace(s[i])
  {
    if |s| > 0 {
      IsBlankMeansAllWhiteSpace(s[1..]);
      assert forall i :: 1 <= i < |s| ==> s[i] == s[1..][i - 1];
    }
  }

  predicate StartsWith(s: string, prefix: string) {
    |prefix| <= |s| && s[..|prefix|] == prefix
  }

  /** `pattern` occurs in `s` starting at index `i`. */
  predicate OccursAt(s: string, pattern: string, i: int) {
    0 <= i && i + |pattern| <= |s| && s[i..i + |pattern|] == pattern
  }

  /** Ordinal string.IndexOf(pattern, from): the first occurrence at or after
      `from`, or -1. */
  function IndexOfFrom(s: string, pattern: string, from: nat): (r: int)
    ensures r == -1 || (from <= r && OccursAt(s, pattern, r))
    ensures r == -1 ==> forall j :: from <= j ==> !OccursAt(s, pattern, j)
    ensures r != -1 ==> forall j :: from <= j < r ==> !OccursAt(s, pattern, j)
    decreases |s| - from
  {
    if from + |pattern| > |s| then -1
    else if OccursAt(s, pattern, from) then from
    else IndexOfFrom(s, pattern, from + 1)
  }

  /** Ordinal string.IndexOf(pattern). */
  function IndexOf(s: string, pattern: string): (r: int)
    ensures r == -1 || OccursAt(s, pattern, r)
    ensures r == -1 <==> forall j :: !OccursAt(s, pattern, j)
    ensures r != -1 ==> forall j :: j < r ==> !OccursAt(s, pattern, j)
  {
    IndexOfFrom(s, pattern, 0)
  }

  /** Ordinal string.Contains. */
  predicate Contains(s: string, pattern: string) {
    IndexOf(s, pattern) >= 0
  }

  /** The text before the first occurrence of a non-empty pattern does not
      contain it. */
  lemma {:induction false} NoOccurrenceBeforeFirst(s: string, pattern: string, m: int)
    requires |pattern| > 0 && 0 <= m <= |s|
    requires forall j :: j < m ==> !OccursAt(s, pattern, j)
    ensures IndexOf(s[..m], pattern) == -1
  {
    var t := s[..m];
    var r := IndexOf(t, pattern);
    if r != -1 {
      assert t[r..r + |pattern|] == s[r..r + |pattern|];
      assert OccursAt(s, pattern, r);
    }
  }

  /** The ASCII part of invariant case folding. */
  function Lower(c: char): char {
    if 'A' <= c <= 'Z' then (c as int + 32) as char else c
  }

  function FoldCase(s: string): (r: string)
    ensures |r| == |s| && forall i :: 0 <= i < |s| ==> r[i] == Lower(s[i])
  {
    seq(|s|, i requires 0 <= i < |s| => Lower(s[i]))
  }

  /** StringComparison.OrdinalIgnoreCase equality. */
  predicate EqualsIgnoreCase(a: string, b: string) {
    FoldCase(a) == FoldCase(b)
  }

  /** IndexOf(pattern, StringComparison.OrdinalIgnoreCase). */
  function IndexOfIgnoreCase(s: string, pattern: string): int {
    IndexOf(FoldCase(s), FoldCase(pattern))
  }

  predicate IsDigit(c: char) {
    '0' <= c <= '9'
  }

  function DigitValue(c: char): int
    requires IsDigit(c)
  {
    c as int - '0' as int
  }
}
