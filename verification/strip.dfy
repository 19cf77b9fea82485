/**
  `stripPunctuationAndCheck`: decides for one token whether it is skipped,
  accepted or reported.  Leading punctuation is skipped, empty, all-hyphen
  and numeric remainders are ignored, a cleaned prefix is copied, and the
  cleaned word, or each of its hyphen-separated segments, is looked up.
*/
module Strip {
  import opened CType
  import opened Classify
  import opened Matcher
  import opened Stdio

  datatype Option<T> = None | Some(value: T)

  /** One reported word: 1-based line and column, and the token as it appeared. */
  datatype Report = Report(line: nat, column: nat, text: string)

  /** The leading-punctuation loop: how many characters that are neither alphanumeric nor `-` open the token. */
  function LeadingPunctuation(token: string, i: nat): (n: nat)
    requires i <= |token|
    requires forall k :: 0 <= k < i ==> !IsAlnum(token[k]) && token[k] != '-'
    ensures i <= n <= |token|
    ensures forall k :: 0 <= k < n ==> !IsAlnum(token[k]) && token[k] != '-'
    ensures n == |token| || IsAlnum(token[n]) || token[n] == '-'
    decreases |token| - i
  {
    if i < |token| && !IsAlnum(token[i]) && token[i] != '-' then LeadingPunctuation(token, i + 1)
    else i
  }

  /** What is left of the token once its leading punctuation is skipped. */
  function Remainder(token: string): (rem: string)
    ensures |rem| <= |token| && rem == token[|token| - |rem|..]
    ensures |rem| == 0 || IsAlnum(rem[0]) || rem[0] == '-'
    ensures forall k :: 0 <= k < |token| - |rem| ==> !IsAlnum(token[k]) && token[k] != '-'
  {
    token[LeadingPunctuation(token, 0)..]
  }

  predicate AllHyphens(s: string)
  {
    forall k :: 0 <= k < |s| ==> s[k] == '-'
  }

  /**
    The skip rule: the remainder is empty, only hyphens, or a number.  The
    number test sees the remainder with its trailing punctuation still on.
    A skipped token holds no letter, so a token with a letter is always
    looked up.
  */
  predicate Skipped(token: string): (b: bool)
    ensures b ==> forall k :: 0 <= k < |token| ==> !IsUpper(token[k]) && !IsLower(token[k])
  {
    var rem := Remainder(token);
    SkipShapeHasNoLetter(token);
    |rem| == 0 || AllHyphens(rem) || IsNumber(rem)
  }

  /** Leading punctuation followed by nothing, hyphens only, or a number holds no letter. */
  lemma SkipShapeHasNoLetter(token: string)
    ensures (|Remainder(token)| == 0 || AllHyphens(Remainder(token)) || IsNumber(Remainder(token))) ==>
              forall k :: 0 <= k < |token| ==> !IsUpper(token[k]) && !IsLower(token[k])
  {
    var rem := Remainder(token);
    if |rem| == 0 || AllHyphens(rem) || IsNumber(rem) {
      var p := |token| - |rem|;
      if IsNumber(rem) {
        NumberHasNoLetter(rem);
      }
      forall k | 0 <= k < |token|
        ensures !IsUpper(token[k]) && !IsLower(token[k])
      {
        if k >= p {
          assert token[k] == rem[k - p];
        }
      }
    }
  }

  /** The copy loop keeps position `i`: an alphanumeric, or a `-` followed by an alphanumeric. */
  predicate Keeps(s: string, i: nat)
  {
    i < |s| && (IsAlnum(s[i]) || (s[i] == '-' && i + 1 < |s| && IsAlnum(s[i + 1])))
  }

  /**
    The copy loop: the longest prefix of `s` whose every position is kept,
    with the flag telling whether a hyphen was copied.
  */
  function CopyWord(s: string): (r: (string, bool))
    ensures r.0 <= s
    ensures forall k :: 0 <= k < |r.0| ==> Keeps(s, k)
    ensures |r.0| == |s| || !Keeps(s, |r.0|)
    ensures r.1 <==> '-' in r.0
  {
    if Keeps(s, 0) then
      var (w, hyphen) := CopyWord(s[1..]);
      var r := ([s[0]] + w, s[0] == '-' || hyphen);
      forall k | 0 < k <= |w|
        ensures (Keeps(s[1..], k - 1) <==> Keeps(s, k))
      {
      }
      assert |r.0| < |s| ==> (Keeps(s[1..], |w|) <==> Keeps(s, |r.0|));
      r
    else ([], false)
  }

  /** The cleaned word `processedWord` of a token. */
  function Cleaned(token: string): string
  {
    CopyWord(Remainder(token)).0
  }

  /**
    The cleaned word holds only alphanumerics and single hyphens, never ends
    in a hyphen, and stops exactly where the copy loop stops.
  */
  lemma CleanedShape(token: string)
    ensures Cleaned(token) <= Remainder(token)
    ensures forall k :: 0 <= k < |Cleaned(token)| ==> IsAlnum(Cleaned(token)[k]) || Cleaned(token)[k] == '-'
    ensures |Cleaned(token)| > 0 ==> Cleaned(token)[|Cleaned(token)| - 1] != '-'
    ensures forall k :: 0 <= k < |Cleaned(token)| - 1 && Cleaned(token)[k] == '-' ==> Cleaned(token)[k + 1] != '-'
    ensures |Cleaned(token)| == |Remainder(token)| || !Keeps(Remainder(token), |Cleaned(token)|)
  {
    var rem, w := Remainder(token), Cleaned(token);
    assert forall k :: 0 <= k < |w| ==> w[k] == rem[k] && Keeps(rem, k);
  }

  /** The position of the first hyphen in `w` at or after `i`, or the length of `w`. */
  function SegmentEnd(w: string, i: nat): (j: nat)
    requires i <= |w|
    ensures i <= j <= |w|
    ensures forall k :: i <= k < j ==> w[k] != '-'
    ensures j == |w| || w[j] == '-'
    decreases |w| - i
  {
    if i == |w| || w[i] == '-' then i else SegmentEnd(w, i + 1)
  }

  /**
    The manual segment loop: take characters up to the next hyphen, then
    step over that hyphen, until the word is used up.
  */
  function Segments(w: string): (segs: seq<string>)
    ensures forall k :: 0 <= k < |segs| ==> '-' !in segs[k]
    ensures |w| == 0 <==> |segs| == 0
    decreases |w|
  {
    if |w| == 0 then []
    else
      var j := SegmentEnd(w, 0);
      assert forall c :: c in w[..j] ==> c != '-';
      var rest := if j < |w| then w[j + 1..] else [];
      [w[..j]] + Segments(rest)
  }

  /** The segments joined back with hyphens. */
  function JoinHyphens(segs: seq<string>): string
    requires |segs| > 0
  {
    if |segs| == 1 then segs[0] else segs[0] + "-" + JoinHyphens(segs[1..])
  }

  /**
    For a non-empty word that does not end in a hyphen, the segments are the
    pieces between its hyphens: joined with hyphens they give the word back.
  */
  lemma {:induction false} SegmentsJoin(w: string)
    requires |w| > 0 && w[|w| - 1] != '-'
    ensures |Segments(w)| > 0 && JoinHyphens(Segments(w)) == w
    decreases |w|
  {
    var j := SegmentEnd(w, 0);
    var segs := Segments(w);
    if j < |w| {
      var rest := w[j + 1..];
      assert |rest| > 0 && rest[|rest| - 1] == w[|w| - 1];
      SegmentsJoin(rest);
      assert segs[1..] == Segments(rest);
      assert w == w[..j] + "-" + rest;
    } else {
      assert w[..j] == w;
    }
  }

  /** The segment loop's lookups: stops at the first segment the dictionary rejects. */
  function SegmentsKnown(d: seq<string>, segs: seq<string>): (r: bool)
    ensures r <==> forall k :: 0 <= k < |segs| ==> IsWordInDictionary(d, segs[k])
  {
    if |segs| == 0 then true
    else if !IsWordInDictionary(d, segs[0]) then false
    else SegmentsKnown(d, segs[1..])
  }

  /**
    The cleaned word fits the 46-byte `processedWord` buffer, or is never
    copied because the token is skipped.  A longer cleaned word overflows
    the buffer in the source, so a run on such a token is undefined.
  */
  predicate WithinWordBuffer(token: string)
  {
    Skipped(token) || |Cleaned(token)| < WordLength
  }

  /** Whether a cleaned word passes: each segment if a hyphen was copied, the whole word otherwise. */
  predicate Valid(d: seq<string>, token: string): (b: bool)
    ensures b <==> if '-' in Cleaned(token)
                   then forall k :: 0 <= k < |Segments(Cleaned(token))| ==> IsWordInDictionary(d, Segments(Cleaned(token))[k])
                   else IsWordInDictionary(d, Cleaned(token))
  {
    var copied := CopyWord(Remainder(token));
    var w, hyphenFound := copied.0, copied.1;
    assert w == Cleaned(token) && (hyphenFound <==> '-' in w);
    if hyphenFound then
      var known := SegmentsKnown(d, Segments(w));
      assert known <==> forall k :: 0 <= k < |Segments(w)| ==> IsWordInDictionary(d, Segments(w)[k]);
      known
    else IsWordInDictionary(d, w)
  }

  /**
    `stripPunctuationAndCheck` for a token at 0-based offset `start` of line
    `lineNum`: no report for a skipped or valid token; otherwise a report
    with the token as it appeared and the 1-based column of its first
    character, leading punctuation included.  The verdict is the one the
    source reaches when the cleaned word fits its buffer (`WithinWordBuffer`);
    for a longer word it is the verdict an unbounded buffer would give.
  */
  function CheckToken(d: seq<string>, token: string, lineNum: nat, start: nat): (r: Option<Report>)
    ensures r.Some? ==> r.value == Report(lineNum, start + 1, token)
  {
    if Skipped(token) then None
    else if Valid(d, token) then None
    else Some(Report(lineNum, start + 1, token))
  }

  /**
    A token is reported exactly when it is not skipped and its cleaned word
    fails: some hyphen-separated segment is rejected when a hyphen was
    copied, the whole cleaned word otherwise.
  */
  lemma ReportedIff(d: seq<string>, token: string, lineNum: nat, start: nat)
    ensures CheckToken(d, token, lineNum, start).Some? <==>
              && !Skipped(token)
              && (if '-' in Cleaned(token)
                  then exists k :: 0 <= k < |Segments(Cleaned(token))| && !IsWordInDictionary(d, Segments(Cleaned(token))[k])
                  else !IsWordInDictionary(d, Cleaned(token)))
  {
    var (w, hyphenFound) := CopyWord(Remainder(token));
    assert w == Cleaned(token) && (hyphenFound <==> '-' in w);
    if hyphenFound {
      assert Valid(d, token) <==> SegmentsKnown(d, Segments(w));
    } else {
      assert Valid(d, token) <==> IsWordInDictionary(d, w);
    }
  }

  /**
    A skipped token is never reported, whatever the dictionary holds: the
    skip rule is decided before any lookup.
  */
  lemma SkippedNeverReported(d: seq<string>, token: string, lineNum: nat, start: nat)
    requires Skipped(token)
    ensures CheckToken(d, token, lineNum, start) == None
  {
  }

  /** A token whose remainder is a number is never reported, whatever the dictionary holds. */
  lemma NumberNeverReported(d: seq<string>, token: string, lineNum: nat, start: nat)
    requires IsNumber(Remainder(token))
    ensures CheckToken(d, token, lineNum, start) == None
  {
  }

  /** Against the empty dictionary, exactly the tokens that are not skipped are reported. */
  lemma EmptyDictionaryReportsUnskipped(token: string, lineNum: nat, start: nat)
    ensures CheckToken([], token, lineNum, start).Some? <==> !Skipped(token)
  {
    var w := Cleaned(token);
    if !Skipped(token) && '-' in w {
      assert |Segments(w)| > 0;
      EmptyDictionaryRejects(Segments(w)[0]);
    }
  }

  /**
    A hyphenated token is accepted exactly when every piece between its
    hyphens is: with the segments `w == s0-s1-...`, the token passes iff each
    `si` does.
  */
  lemma HyphenatedValidIffSegments(d: seq<string>, token: string, lineNum: nat, start: nat)
    requires !Skipped(token) && '-' in Cleaned(token)
    ensures JoinHyphens(Segments(Cleaned(token))) == Cleaned(token)
    ensures CheckToken(d, token, lineNum, start) == None
        <==> forall k :: 0 <= k < |Segments(Cleaned(token))| ==> IsWordInDictionary(d, Segments(Cleaned(token))[k])
  {
    CleanedShape(token);
    SegmentsJoin(Cleaned(token));
  }

  /**
    A cleaned word that opens with a hyphen (token `-abc`) has an empty first
    segment, so the token is reported unless the dictionary has an empty entry.
  */
  lemma LeadingHyphenNeedsEmptyEntry(d: seq<string>, token: string, lineNum: nat, start: nat)
    requires !Skipped(token)
    requires |Cleaned(token)| > 0 && Cleaned(token)[0] == '-'
    requires "" !in d
    ensures CheckToken(d, token, lineNum, start).Some?
  {
    var w := Cleaned(token);
    assert SegmentEnd(w, 0) == 0;
    assert Segments(w)[0] == "";
    assert !IsWordInDictionary(d, "");
  }

  /** A token whose cleaned word is spelled exactly as an entry, with no hyphen, is not reported. */
  lemma ExactCleanedWordAccepted(d: seq<string>, token: string, lineNum: nat, start: nat)
    requires Cleaned(token) in d && '-' !in Cleaned(token)
    ensures CheckToken(d, token, lineNum, start) == None
  {
  }

  /** Numbers with their punctuation, bare punctuation and bare hyphens are skipped. */
  lemma SkippedExamples()
    ensures Skipped("3.") && Skipped("(+7") && Skipped("--") && Skipped("...")
  {
    NumberWithPeriodSkipped();
    SignedNumberSkipped();
    HyphensSkipped();
    PunctuationSkipped();
  }

  /** `3.` is a number with trailing punctuation. */
  lemma NumberWithPeriodSkipped()
    ensures Skipped("3.")
  {
    assert LeadingPunctuation("3.", 0) == 0;
    assert Remainder("3.") == "3.";
    NumberExamples();
  }

  /** `(+7`: the parenthesis and the sign are leading punctuation, leaving the number `7`. */
  lemma SignedNumberSkipped()
    ensures Skipped("(+7")
  {
    assert LeadingPunctuation("(+7", 2) == 2;
    assert LeadingPunctuation("(+7", 0) == 2;
    assert Remainder("(+7") == "7";
    assert IsNumber("7") by { assert AllDigits("7"); }
  }

  /** `--` is all hyphens. */
  lemma HyphensSkipped()
    ensures Skipped("--")
  {
    assert LeadingPunctuation("--", 0) == 0;
    assert AllHyphens("--");
  }

  /** `...` is all leading punctuation, leaving nothing. */
  lemma PunctuationSkipped()
    ensures Skipped("...")
  {
    assert LeadingPunctuation("...", 3) == 3;
    assert LeadingPunctuation("...", 0) == 3;
  }

  /** A trailing comma is not part of a number: `12,` is looked up as `12`. */
  lemma TrailingCommaExample()
    ensures !Skipped("12,") && Cleaned("12,") == "12"
  {
    assert Remainder("12,") == "12,";
    assert !IsNumber("12,") by { assert Unsigned("12,")[..2] == "12"; }
    assert !Keeps(",", 0) && CopyWord(",") == ("", false);
    assert Keeps("2,", 0) && "2,"[1..] == "," && ['2'] + "" == "2";
    assert CopyWord("2,") == ("2", false);
    assert Keeps("12,", 0) && "12,"[1..] == "2," && ['1'] + "2" == "12";
  }

  /** `-.` is neither skipped nor copied: its cleaned word is empty. */
  lemma HyphenPeriodExample()
    ensures !Skipped("-.") && Cleaned("-.") == ""
  {
    assert Remainder("-.") == "-.";
    assert !Keeps("-.", 0);
  }

  /** `well-known` is checked as the segments `well` and `known`. */
  lemma WellKnownExample()
    ensures Segments("well-known") == ["well", "known"]
  {
    assert SegmentEnd("well-known", 0) == 4;
    assert "well-known"[5..] == "known" && "well-known"[..4] == "well";
    assert SegmentEnd("known", 0) == 5 && "known"[..5] == "known";
    assert Segments("known") == ["known"];
  }

  /** With the dictionary `Hello`, `world`: `wrold!!` at offset 7 is reported at column 8 with its punctuation. */
  lemma MisspelledWordExample()
    ensures CheckToken(["Hello", "world"], "wrold!!", 1, 7) == Some(Report(1, 8, "wrold!!"))
  {
    WroldIsCheckedAsWrold();
    WroldRejected();
  }

  /** `wrold` is neither an entry nor a case variant of one. */
  lemma WroldRejected()
    ensures !IsWordInDictionary(["Hello", "world"], "wrold")
  {
    assert ToLower("Hello"[0]) != ToLower("wrold"[0]);
    assert ToLower("world"[1]) != ToLower("wrold"[1]);
  }

  /** `wrold!!` is not skipped, and its trailing punctuation is stripped with no hyphen copied. */
  lemma WroldIsCheckedAsWrold()
    ensures !Skipped("wrold!!") && CopyWord(Remainder("wrold!!")) == ("wrold", false)
  {
    var token := "wrold!!";
    assert LeadingPunctuation(token, 0) == 0;
    assert Remainder(token) == token;
    assert !IsNumber(token) by { assert !IsDigit(token[0]); }
    WroldCopied();
  }

  /** The copy loop on `wrold!!` stops at the first `!`. */
  lemma WroldCopied()
    ensures CopyWord("wrold!!") == ("wrold", false)
  {
    assert CopyWord("!!") == ("", false);
    assert CopyWord("d!!") == ("d", false) by { assert Keeps("d!!", 0) && "d!!"[1..] == "!!" && ['d'] + "" == "d"; }
    assert CopyWord("ld!!") == ("ld", false) by { assert Keeps("ld!!", 0) && "ld!!"[1..] == "d!!" && ['l'] + "d" == "ld"; }
    assert CopyWord("old!!") == ("old", false) by { assert Keeps("old!!", 0) && "old!!"[1..] == "ld!!" && ['o'] + "ld" == "old"; }
    assert CopyWord("rold!!") == ("rold", false) by { assert Keeps("rold!!", 0) && "rold!!"[1..] == "old!!" && ['r'] + "old" == "rold"; }
    assert Keeps("wrold!!", 0) && "wrold!!"[1..] == "rold!!" && ['w'] + "rold" == "wrold";
  }
}
