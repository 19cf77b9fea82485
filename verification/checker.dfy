/**
  `checkSpelling` for one file: the text is read in `fgets` chunks of at
  most 1023 characters, each chunk is one line (numbered from 1), every
  token of every line goes through `stripPunctuationAndCheck`, and one flag
  records whether any token was reported.
*/
module Checker {
  import opened Stdio
  import opened Tokenizer
  import opened Strip

  /**
    The lines of a file as `strtok` sees them: one per `fgets` chunk of at
    most 1023 characters, each the chunk up to its first NUL, so a chunk
    without NUL is seen whole.
  */
  function FileLines(text: string): (lines: seq<string>)
    ensures |lines| == |FgetsChunks(text, LineBufferSize - 1)|
    ensures forall k :: 0 <= k < |lines| ==> lines[k] <= FgetsChunks(text, LineBufferSize - 1)[k] && '\0' !in lines[k]
    ensures forall k :: 0 <= k < |lines| ==>
              |lines[k]| == |FgetsChunks(text, LineBufferSize - 1)[k]| || FgetsChunks(text, LineBufferSize - 1)[k][|lines[k]|] == '\0'
    ensures forall k :: 0 <= k < |lines| && '\0' !in FgetsChunks(text, LineBufferSize - 1)[k] ==>
              lines[k] == FgetsChunks(text, LineBufferSize - 1)[k]
  {
    var chunks := FgetsChunks(text, LineBufferSize - 1);
    seq(|chunks|, k requires 0 <= k < |chunks| => CString(chunks[k]))
  }

  /** A file without NUL characters is seen whole: its lines concatenate back to its text. */
  lemma FileLinesWithoutNul(text: string)
    requires '\0' !in text
    ensures Flatten(FileLines(text)) == text
  {
    var chunks := FgetsChunks(text, LineBufferSize - 1);
    forall k | 0 <= k < |chunks|
      ensures '\0' !in chunks[k]
    {
      if '\0' in chunks[k] {
        InFlatten(chunks, k, '\0');
      }
    }
    assert FileLines(text) == chunks;
  }

  /** Every token of the line fits the word buffer, unless it is skipped. */
  predicate LineWithinBuffers(line: string)
  {
    forall k :: 0 <= k < |Tokens(line)| ==> WithinWordBuffer(Tokens(line)[k].text)
  }

  /** Every token of every `fgets` line of the file fits the word buffer, unless it is skipped. */
  predicate TextWithinBuffers(text: string)
  {
    forall k :: 0 <= k < |FileLines(text)| ==> LineWithinBuffers(FileLines(text)[k])
  }

  /** The outcome of `stripPunctuationAndCheck` for each token of line `lineNum`, in token order. */
  function Outcomes(d: seq<string>, ts: seq<Token>, lineNum: nat): seq<Option<Report>>
  {
    seq(|ts|, k requires 0 <= k < |ts| => CheckToken(d, ts[k].text, lineNum, ts[k].start))
  }

  /** The values of the `Some` outcomes, in order: exactly the reports that were printed. */
  function Somes<T>(os: seq<Option<T>>): (xs: seq<T>)
    ensures forall x :: x in xs ==> Some(x) in os
    ensures forall k :: 0 <= k < |os| && os[k].Some? ==> os[k].value in xs
    ensures |xs| <= |os|
    decreases |os|
  {
    if |os| == 0 then []
    else
      var init := os[..|os| - 1];
      assert forall k :: 0 <= k < |init| ==> init[k] == os[k];
      var last := os[|os| - 1];
      Somes(init) + (if last.Some? then [last.value] else [])
  }

  /** The reports of a sequence of tokens of line `lineNum`, in token order. */
  function TokenReports(d: seq<string>, ts: seq<Token>, lineNum: nat): (rs: seq<Report>)
    ensures forall r :: r in rs ==> r.line == lineNum
  {
    var os := Outcomes(d, ts, lineNum);
    var rs := Somes(os);
    assert forall r :: r in rs ==> r.line == lineNum by {
      forall r | r in rs
        ensures r.line == lineNum
      {
        var k :| 0 <= k < |os| && os[k] == Some(r);
      }
    }
    rs
  }

  /** One more token appends its report, if it has one. */
  lemma TokenReportsSnoc(d: seq<string>, ts: seq<Token>, lineNum: nat, t: nat)
    requires t < |ts|
    ensures var r := CheckToken(d, ts[t].text, lineNum, ts[t].start);
            TokenReports(d, ts[..t + 1], lineNum) == TokenReports(d, ts[..t], lineNum) + (if r.Some? then [r.value] else [])
  {
    var os := Outcomes(d, ts[..t + 1], lineNum);
    assert os[..t] == Outcomes(d, ts[..t], lineNum);
  }

  /** The reports of one line. */
  function LineReports(d: seq<string>, line: string, lineNum: nat): (rs: seq<Report>)
    ensures forall r :: r in rs ==> r.line == lineNum
  {
    TokenReports(d, Tokens(line), lineNum)
  }

  /** No token of the line, numbered `lineNum`, is reported. */
  predicate NoTokenReported(d: seq<string>, line: string, lineNum: nat)
  {
    forall k :: 0 <= k < |Tokens(line)| ==> CheckToken(d, Tokens(line)[k].text, lineNum, Tokens(line)[k].start).None?
  }

  /** A line has no reports exactly when none of its tokens is reported. */
  lemma LineReportsEmptyIff(d: seq<string>, line: string, lineNum: nat)
    ensures |LineReports(d, line, lineNum)| == 0 <==> NoTokenReported(d, line, lineNum)
  {
    var ts := Tokens(line);
    var os := Outcomes(d, ts, lineNum);
    var rs := LineReports(d, line, lineNum);
    if |rs| > 0 {
      assert rs[0] in rs;
      var k :| 0 <= k < |os| && os[k] == Some(rs[0]);
    } else {
      forall k | 0 <= k < |ts|
        ensures CheckToken(d, ts[k].text, lineNum, ts[k].start).None?
      {
        assert os[k] == CheckToken(d, ts[k].text, lineNum, ts[k].start);
      }
    }
  }

  /**
    Every report of a line carries that line's number and the column and
    text of one of its tokens, and checking that token produces exactly it.
  */
  lemma LineReportsLocated(d: seq<string>, line: string, lineNum: nat, r: Report) returns (k: nat)
    requires r in LineReports(d, line, lineNum)
    ensures r.line == lineNum
    ensures k < |Tokens(line)| && r == Report(lineNum, Tokens(line)[k].start + 1, Tokens(line)[k].text)
    ensures CheckToken(d, Tokens(line)[k].text, lineNum, Tokens(line)[k].start) == Some(r)
  {
    var ts := Tokens(line);
    var os := Outcomes(d, ts, lineNum);
    assert Some(r) in os;
    k :| 0 <= k < |os| && os[k] == Some(r);
  }

  /**
    The reports of a file's lines, in line order and within a line in token
    order; the line at index `k` is checked with line number `k + 1`.
  */
  function LinesReports(d: seq<string>, lines: seq<string>): (rs: seq<Report>)
    ensures forall r :: r in rs ==> 1 <= r.line <= |lines|
    decreases |lines|
  {
    if |lines| == 0 then []
    else
      LinesReports(d, lines[..|lines| - 1]) + LineReports(d, lines[|lines| - 1], |lines|)
  }

  /** One more line appends its reports. */
  lemma LinesReportsSnoc(d: seq<string>, lines: seq<string>, n: nat)
    requires n < |lines|
    ensures LinesReports(d, lines[..n + 1]) == LinesReports(d, lines[..n]) + LineReports(d, lines[n], n + 1)
  {
    assert lines[..n + 1][..n] == lines[..n];
  }

  /** All reports for a file, in line order and within a line in token order. */
  function FileReports(d: seq<string>, text: string): (rs: seq<Report>)
    ensures forall r :: r in rs ==> 1 <= r.line <= |FileLines(text)|
  {
    LinesReports(d, FileLines(text))
  }

  /**
    Every report of a sequence of lines names one of them, by its 1-based
    number, and one of its tokens, and checking that token produces exactly it.
  */
  lemma {:induction false} LinesReportsLocated(d: seq<string>, lines: seq<string>, r: Report) returns (k: nat)
    requires r in LinesReports(d, lines)
    ensures 1 <= r.line <= |lines|
    ensures k < |Tokens(lines[r.line - 1])|
    ensures r == Report(r.line, Tokens(lines[r.line - 1])[k].start + 1, Tokens(lines[r.line - 1])[k].text)
    ensures CheckToken(d, Tokens(lines[r.line - 1])[k].text, r.line, Tokens(lines[r.line - 1])[k].start) == Some(r)
    decreases |lines|
  {
    var n := |lines| - 1;
    if r in LinesReports(d, lines[..n]) {
      k := LinesReportsLocated(d, lines[..n], r);
      LocatedInPrefix(d, lines, n, r, k);
    } else {
      k := LocatedInLastLine(d, lines, r);
    }
  }

  /** A report located in the first `n` lines is located in the same line of the whole sequence. */
  lemma LocatedInPrefix(d: seq<string>, lines: seq<string>, n: nat, r: Report, k: nat)
    requires n <= |lines| && 1 <= r.line <= n
    requires k < |Tokens(lines[..n][r.line - 1])|
    requires r == Report(r.line, Tokens(lines[..n][r.line - 1])[k].start + 1, Tokens(lines[..n][r.line - 1])[k].text)
    requires CheckToken(d, Tokens(lines[..n][r.line - 1])[k].text, r.line, Tokens(lines[..n][r.line - 1])[k].start) == Some(r)
    ensures k < |Tokens(lines[r.line - 1])|
    ensures r == Report(r.line, Tokens(lines[r.line - 1])[k].start + 1, Tokens(lines[r.line - 1])[k].text)
    ensures CheckToken(d, Tokens(lines[r.line - 1])[k].text, r.line, Tokens(lines[r.line - 1])[k].start) == Some(r)
  {
    assert lines[..n][r.line - 1] == lines[r.line - 1];
  }

  /** A report that is not among those of the earlier lines is one of the last line's. */
  lemma LocatedInLastLine(d: seq<string>, lines: seq<string>, r: Report) returns (k: nat)
    requires |lines| > 0 && r in LinesReports(d, lines) && r !in LinesReports(d, lines[..|lines| - 1])
    ensures r.line == |lines|
    ensures k < |Tokens(lines[r.line - 1])|
    ensures r == Report(r.line, Tokens(lines[r.line - 1])[k].start + 1, Tokens(lines[r.line - 1])[k].text)
    ensures CheckToken(d, Tokens(lines[r.line - 1])[k].text, r.line, Tokens(lines[r.line - 1])[k].start) == Some(r)
  {
    k := LineReportsLocated(d, lines[|lines| - 1], |lines|, r);
  }

  /**
    Every report of a file names a line of the file (numbered from 1, one
    number per `fgets` chunk) and the column and original text of a token of
    that line which `stripPunctuationAndCheck` reports.
  */
  lemma FileReportsLocated(d: seq<string>, text: string, r: Report)
    requires r in FileReports(d, text)
    ensures 1 <= r.line <= |FileLines(text)|
    ensures var line := FileLines(text)[r.line - 1];
            exists k :: && 0 <= k < |Tokens(line)|
                        && r == Report(r.line, Tokens(line)[k].start + 1, Tokens(line)[k].text)
                        && CheckToken(d, Tokens(line)[k].text, r.line, Tokens(line)[k].start) == Some(r)
  {
    var lines := FileLines(text);
    var k := LinesReportsLocated(d, lines, r);
    var line := lines[r.line - 1];
    assert && k < |Tokens(line)|
           && r == Report(r.line, Tokens(line)[k].start + 1, Tokens(line)[k].text)
           && CheckToken(d, Tokens(line)[k].text, r.line, Tokens(line)[k].start) == Some(r);
  }

  /** A sequence of lines has no reports exactly when none of its lines has any. */
  lemma {:induction false} LinesReportsEmptyIff(d: seq<string>, lines: seq<string>)
    ensures |LinesReports(d, lines)| == 0 <==>
              forall li :: 0 <= li < |lines| ==> |LineReports(d, lines[li], li + 1)| == 0
    decreases |lines|
  {
    if |lines| > 0 {
      var n := |lines| - 1;
      var init := lines[..n];
      LinesReportsEmptyIff(d, init);
      var last := LineReports(d, lines[n], n + 1);
      assert LinesReports(d, lines) == LinesReports(d, init) + last;
      if |LinesReports(d, lines)| == 0 {
        forall li | 0 <= li < |lines|
          ensures |LineReports(d, lines[li], li + 1)| == 0
        {
          if li < n {
            assert init[li] == lines[li];
          } else {
            assert li == n;
          }
        }
      } else if |LinesReports(d, init)| == 0 {
        assert |last| > 0;
      } else {
        var li :| 0 <= li < n && |LineReports(d, init[li], li + 1)| > 0;
        assert init[li] == lines[li];
      }
    }
  }

  /**
    "No spelling errors found" is printed for a file exactly when no token
    on any of its lines is reported.
  */
  lemma NoReportsIffNoTokenReported(d: seq<string>, text: string)
    ensures |FileReports(d, text)| == 0 <==>
              forall li :: 0 <= li < |FileLines(text)| ==> NoTokenReported(d, FileLines(text)[li], li + 1)
  {
    var lines := FileLines(text);
    LinesReportsEmptyIff(d, lines);
    forall li | 0 <= li < |lines|
      ensures |LineReports(d, lines[li], li + 1)| == 0 <==> NoTokenReported(d, lines[li], li + 1)
    {
      LineReportsEmptyIff(d, lines[li], li + 1);
    }
  }

  /**
    The inner `strtok` loop of `checkSpelling` over the tokens of line
    `lineNum`: the reports it prints, and whether it set the error flag.
  */
  method CheckLine(d: seq<string>, ts: seq<Token>, lineNum: nat) returns (reports: seq<Report>, errorFound: bool)
    ensures reports == TokenReports(d, ts, lineNum)
    ensures errorFound <==> |reports| > 0
  {
    reports, errorFound := [], false;
    var t := 0;
    while t < |ts|
      invariant 0 <= t <= |ts|
      invariant reports == TokenReports(d, ts[..t], lineNum)
      invariant errorFound <==> |reports| > 0
    {
      TokenReportsSnoc(d, ts, lineNum, t);
      var r := CheckToken(d, ts[t].text, lineNum, ts[t].start);
      if r.Some? {
        reports := reports + [r.value];
        errorFound := true;
      }
      t := t + 1;
    }
    assert ts[..t] == ts;
  }

  /**
    The `fgets` loop of `checkSpelling` over the lines of a file: the line at
    index `k` is checked as line `k + 1`.
  */
  method CheckLines(d: seq<string>, lines: seq<string>) returns (reports: seq<Report>, errorFound: bool)
    ensures reports == LinesReports(d, lines)
    ensures errorFound <==> |reports| > 0
  {
    reports, errorFound := [], false;
    var lineNum := 1;
    while lineNum <= |lines|
      invariant 1 <= lineNum <= |lines| + 1
      invariant reports == LinesReports(d, lines[..lineNum - 1])
      invariant errorFound <==> |reports| > 0
    {
      var done := lineNum - 1;
      var line := lines[done];
      LinesReportsSnoc(d, lines, done);
      var lineReports, lineError := CheckLine(d, Tokens(line), lineNum);
      assert lineReports == LineReports(d, line, done + 1);
      reports := reports + lineReports;
      errorFound := errorFound || lineError;
      lineNum := lineNum + 1;
    }
    assert lines[..|lines|] == lines;
  }

  /**
    `checkSpelling` on the text of a file: the reports it prints, and the
    error flag that decides whether "No spelling errors found" is printed.
    The flag is set exactly when some token of some line was reported.  A
    run is defined only when every cleaned word fits its buffer.
  */
  method CheckSpelling(d: seq<string>, text: string) returns (reports: seq<Report>, errorFound: bool)
    requires TextWithinBuffers(text)
    ensures reports == FileReports(d, text)
    ensures errorFound <==> |reports| > 0
  {
    reports, errorFound := CheckLines(d, FileLines(text));
  }
}
