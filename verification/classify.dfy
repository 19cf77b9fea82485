/**
  Token classifiers: `isNumber`, `isAllUpperCase` and `isCapitalized`.
  Each is written as the scan the C loop performs, and its contract states
  the shape of the strings it accepts.
*/
module Classify {
  import opened CType

  predicate AllDigits(s: string)
  {
    forall i :: 0 <= i < |s| ==> IsDigit(s[i])
  }

  /** `s` with at most one leading `+` or `-` dropped. */
  function Unsigned(s: string): string
  {
    if |s| > 0 && (s[0] == '-' || s[0] == '+') then s[1..] else s
  }

  /** A non-empty run of digits, optionally followed by exactly one final period. */
  predicate DigitsWithOptionalPeriod(u: string)
  {
    || (|u| > 0 && AllDigits(u))
    || (|u| > 1 && AllDigits(u[..|u| - 1]) && u[|u| - 1] == '.')
  }

  /** The strings `isNumber` is meant to accept: an optional sign, then digits, then an optional period. */
  predicate NumberShape(s: string)
  {
    DigitsWithOptionalPeriod(Unsigned(s))
  }

  /**
    The while loop of `isNumber` over the unsigned part `u`, at position `i`
    with every earlier character a digit.  A non-digit ends the scan: it is
    accepted only when it is a final period and at least one digit precedes it.
  */
  function ScanNumber(u: string, i: nat): (r: bool)
    requires i <= |u|
    requires AllDigits(u[..i])
    ensures r <==> DigitsWithOptionalPeriod(u)
    decreases |u| - i
  {
    if i == |u| then i != 0
    else if !IsDigit(u[i]) then i + 1 == |u| && u[i] == '.' && i != 0
    else
      assert u[..i + 1] == u[..i] + [u[i]];
      ScanNumber(u, i + 1)
  }

  /** `isNumber`: skip one sign, reject an empty rest, then scan. */
  function IsNumber(s: string): (r: bool)
    ensures r <==> NumberShape(s)
  {
    var u := Unsigned(s);
    if |u| == 0 then false else ScanNumber(u, 0)
  }

  /** The loop of `isAllUpperCase` from position `i`: stops at the first character outside `A`..`Z`. */
  function UpperFrom(w: string, i: nat): (r: bool)
    requires i <= |w|
    ensures r <==> forall k :: i <= k < |w| ==> IsUpper(w[k])
    decreases |w| - i
  {
    if i == |w| then true
    else if !IsUpper(w[i]) then false
    else UpperFrom(w, i + 1)
  }

  /** The loop of `isCapitalized` from position `i`: fails at the first character in `A`..`Z`. */
  function NoUpperFrom(w: string, i: nat): (r: bool)
    requires i <= |w|
    ensures r <==> forall k :: i <= k < |w| ==> !IsUpper(w[k])
    decreases |w| - i
  {
    if i == |w| then true
    else if IsUpper(w[i]) then false
    else NoUpperFrom(w, i + 1)
  }

  /**
    `isAllUpperCase`: every character is `A`..`Z`.  Digits and hyphens
    disqualify, and the empty word qualifies vacuously.
  */
  function IsAllUpperCase(w: string): (r: bool)
    ensures r <==> forall k :: 0 <= k < |w| ==> IsUpper(w[k])
    ensures |w| == 0 ==> r
  {
    UpperFrom(w, 0)
  }

  /**
    `isCapitalized`: at least two characters, the first in `A`..`Z` and none
    of the others.
  */
  function IsCapitalized(w: string): (r: bool)
    ensures r <==> |w| >= 2 && IsUpper(w[0]) && forall k :: 1 <= k < |w| ==> !IsUpper(w[k])
  {
    |w| > 0 && IsUpper(w[0]) && |w| > 1 && NoUpperFrom(w, 1)
  }

  /** A number holds only digits, a sign and a period. */
  lemma NumberHasNoLetter(s: string)
    requires NumberShape(s)
    ensures forall k :: 0 <= k < |s| ==> IsDigit(s[k]) || s[k] == '-' || s[k] == '+' || s[k] == '.'
  {
    var u := Unsigned(s);
    var p := |s| - |u|;
    forall k | 0 <= k < |s|
      ensures IsDigit(s[k]) || s[k] == '-' || s[k] == '+' || s[k] == '.'
    {
      if k >= p {
        assert s[k] == u[k - p];
        if k - p < |u| - 1 {
          assert u[k - p] == u[..|u| - 1][k - p];
        }
      }
    }
  }

  /** The numbers and non-numbers the classifier is documented to tell apart. */
  lemma NumberExamples()
    ensures IsNumber("123") && IsNumber("-45") && IsNumber("+7") && IsNumber("3.")
    ensures !IsNumber("") && !IsNumber("-") && !IsNumber(".") && !IsNumber("-.")
    ensures !IsNumber("12.3") && !IsNumber("12a") && !IsNumber("--5")
  {
    assert Unsigned("--5") == "-5";
    assert Unsigned("12.3")[..3] == "12.";
    assert Unsigned("12a")[..2] == "12";
  }
}
