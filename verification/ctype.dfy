/**
  Character classes and case-insensitive comparison of the C library under the
  "C" locale, as the spelling checker uses them: `isdigit`, `isupper`,
  `isalnum`, `tolower` and `strcasecmp`.  Only ASCII letters and digits belong
  to a class; every other character is punctuation to these predicates.
*/
module CType {

  predicate IsDigit(c: char) { '0' <= c <= '9' }

  predicate IsUpper(c: char) { 'A' <= c <= 'Z' }

  predicate IsLower(c: char) { 'a' <= c <= 'z' }

  predicate IsAlnum(c: char) { IsUpper(c) || IsLower(c) || IsDigit(c) }

  /** `tolower`: folds `A`..`Z` onto `a`..`z` and leaves every other character alone. */
  function ToLower(c: char): char
  {
    if IsUpper(c) then (c as int + 32) as char else c
  }

  /** Two strings are equal after folding case, character by character. */
  predicate CaseEq(a: string, b: string)
  {
    |a| == |b| && forall i :: 0 <= i < |a| ==> ToLower(a[i]) == ToLower(b[i])
  }

  /**
    The sign of `strcasecmp(a, b)`: lexicographic order on the case-folded
    strings, where a proper prefix sorts first (the C terminator is smaller
    than any character).
  */
  function CaseCompare(a: string, b: string): (r: int)
    ensures -1 <= r <= 1
    ensures a == b ==> r == 0
  {
    if |a| == 0 && |b| == 0 then 0
    else if |a| == 0 then -1
    else if |b| == 0 then 1
    else if ToLower(a[0]) < ToLower(b[0]) then -1
    else if ToLower(b[0]) < ToLower(a[0]) then 1
    else CaseCompare(a[1..], b[1..])
  }

  /** `strcasecmp` reports equality exactly for case-insensitively equal strings. */
  lemma {:induction false} CaseCompareZeroIffCaseEq(a: string, b: string)
    ensures CaseCompare(a, b) == 0 <==> CaseEq(a, b)
    decreases |a|
  {
    if |a| > 0 && |b| > 0 {
      CaseCompareZeroIffCaseEq(a[1..], b[1..]);
      if CaseEq(a[1..], b[1..]) && ToLower(a[0]) == ToLower(b[0]) {
        forall i | 0 <= i < |a|
          ensures ToLower(a[i]) == ToLower(b[i])
        {
          if i > 0 {
            assert a[i] == a[1..][i - 1] && b[i] == b[1..][i - 1];
          }
        }
      }
      if CaseEq(a, b) {
        assert ToLower(a[0]) == ToLower(b[0]);
        forall i | 0 <= i < |a[1..]|
          ensures ToLower(a[1..][i]) == ToLower(b[1..][i])
        {
          assert a[1..][i] == a[i + 1] && b[1..][i] == b[i + 1];
        }
      }
    }
  }

  /** Swapping the arguments of `strcasecmp` negates its sign. */
  lemma {:induction false} CaseCompareAntisymmetric(a: string, b: string)
    ensures CaseCompare(a, b) == -CaseCompare(b, a)
    decreases |a|
  {
    if |a| > 0 && |b| > 0 && ToLower(a[0]) == ToLower(b[0]) {
      CaseCompareAntisymmetric(a[1..], b[1..]);
    }
  }

  /**
    The order `strcasecmp` induces is transitive, and strictly so as soon as
    one of the two steps is strict.
  */
  lemma {:induction false} CaseCompareTransitive(a: string, b: string, c: string)
    requires CaseCompare(a, b) <= 0 && CaseCompare(b, c) <= 0
    ensures CaseCompare(a, c) <= 0
    ensures CaseCompare(a, b) < 0 || CaseCompare(b, c) < 0 ==> CaseCompare(a, c) < 0
    decreases |a|
  {
    if |a| > 0 && |b| > 0 && |c| > 0
       && ToLower(a[0]) == ToLower(b[0]) && ToLower(b[0]) == ToLower(c[0])
    {
      CaseCompareTransitive(a[1..], b[1..], c[1..]);
    }
  }
}
