/**
  The dictionary matcher `isWordInDictionary`: a linear scan of the unsorted
  entry list looking for an exact match and, separately, for a
  case-insensitive one, which counts only for all-uppercase or capitalized
  words.
*/
module Matcher {
  import opened CType
  import opened Classify

  /** The two flags the scan keeps. */
  datatype ScanState = ScanState(exact: bool, caseInsensitive: bool)

  /**
    The for loop of `isWordInDictionary` from entry `i`.  An exact match sets
    its flag and leaves the loop; otherwise the entry is compared
    case-insensitively with the word and with `modified`, the copy the source
    meant to partly lower-case.
  */
  function ScanDictionary(d: seq<string>, word: string, modified: string, i: nat, st: ScanState): (r: ScanState)
    requires i <= |d|
    ensures r.exact <==> st.exact || word in d[i..]
    ensures !r.exact ==>
              (r.caseInsensitive <==>
                 || st.caseInsensitive
                 || (exists k :: i <= k < |d| && CaseEq(d[k], word))
                 || (exists k :: i <= k < |d| && CaseEq(d[k], modified)))
    decreases |d| - i
  {
    if i == |d| then st
    else if d[i] == word then ScanState(true, st.caseInsensitive)
    else
      var ci := st.caseInsensitive || CaseEq(d[i], word) || CaseEq(d[i], modified);
      assert d[i..] == [d[i]] + d[i + 1..];
      ScanDictionary(d, word, modified, i + 1, ScanState(st.exact, ci))
  }

  /**
    `isWordInDictionary`.  The source lower-cases a copy of the word into a
    fresh buffer and discards that buffer, so the "modified" word it compares
    is the word itself and its second case-insensitive test repeats the first.
  */
  function IsWordInDictionary(d: seq<string>, word: string): (r: bool)
    ensures r <==>
              || word in d
              || ((exists e :: e in d && CaseEq(e, word))
                  && (IsAllUpperCase(word) || IsCapitalized(word)))
  {
    var modified := word;
    var st := ScanDictionary(d, word, modified, 0, ScanState(false, false));
    assert d[0..] == d;
    assert (exists k :: 0 <= k < |d| && CaseEq(d[k], word)) <==> (exists e :: e in d && CaseEq(e, word));
    st.exact || (st.caseInsensitive && (IsAllUpperCase(word) || IsCapitalized(word)))
  }

  /** A word spelled exactly as an entry is accepted. */
  lemma ExactEntryAccepted(d: seq<string>, word: string)
    requires word in d
    ensures IsWordInDictionary(d, word)
  {
  }

  /**
    An all-uppercase or capitalized variant of an entry is accepted, whatever
    the case of the entry (so "NASA", "Nasa" and "Paris" match "nasa" and
    "paris").
  */
  lemma UpperOrCapitalizedVariantAccepted(d: seq<string>, entry: string, word: string)
    requires entry in d && CaseEq(entry, word)
    requires IsAllUpperCase(word) || IsCapitalized(word)
    ensures IsWordInDictionary(d, word)
  {
  }

  /**
    A non-empty word with no uppercase letter is accepted only by an exact
    entry: a differently-cased entry such as "Paris" does not accept "paris".
  */
  lemma LowercaseNeedsExactEntry(d: seq<string>, word: string)
    requires |word| > 0
    requires forall k :: 0 <= k < |word| ==> !IsUpper(word[k])
    ensures IsWordInDictionary(d, word) <==> word in d
  {
  }

  /** A word with an uppercase letter after a lowercase-or-other first character is accepted only by an exact entry. */
  lemma MixedCaseNeedsExactEntry(d: seq<string>, word: string, k: nat)
    requires 0 < k < |word| && IsUpper(word[k]) && !IsUpper(word[0])
    ensures IsWordInDictionary(d, word) <==> word in d
  {
  }

  /** The empty dictionary rejects every word. */
  lemma EmptyDictionaryRejects(word: string)
    ensures !IsWordInDictionary([], word)
  {
  }

  /** The order of the entries does not matter. */
  lemma {:induction false} MatchIgnoresEntryOrder(d: seq<string>, d': seq<string>, word: string)
    requires multiset(d) == multiset(d')
    ensures IsWordInDictionary(d, word) == IsWordInDictionary(d', word)
  {
    assert forall e :: e in d <==> e in multiset(d);
    assert forall e :: e in d' <==> e in multiset(d');
  }

  /** The capitalisation rule on the words it is known by. */
  lemma MatchExamples()
    ensures IsWordInDictionary(["cat", "dog"], "Cat")
    ensures !IsWordInDictionary(["cat", "dog"], "dogg")
    ensures IsWordInDictionary(["paris"], "PARIS")
    ensures !IsWordInDictionary(["Paris"], "paris")
    ensures !IsWordInDictionary(["cat"], "cAT")
  {
    assert CaseEq("cat", "Cat") && IsCapitalized("Cat");
    assert CaseEq("paris", "PARIS") && IsAllUpperCase("PARIS");
    LowercaseNeedsExactEntry(["Paris"], "paris");
    MixedCaseNeedsExactEntry(["cat"], "cAT", 1);
  }
}
