/**
  The `strtok(line, " \t\n")` loop of the checker, as a pure split of a line
  into its maximal runs of non-delimiter characters, each with its 0-based
  offset in the line.  Carriage returns are not delimiters and stay inside
  tokens.
*/
module Tokenizer {

  predicate IsDelimiter(c: char) { c == ' ' || c == '\t' || c == '\n' }

  /** A token and the offset of its first character in the line. */
  datatype Token = Token(text: string, start: nat)

  /** Position `p` starts a run of non-delimiters when the scan begins at `i`. */
  predicate IsRunStartFrom(line: string, i: nat, p: nat)
  {
    i <= p < |line| && !IsDelimiter(line[p]) && (p == i || IsDelimiter(line[p - 1]))
  }

  /** Position `p` starts a run of non-delimiters in the line. */
  predicate IsRunStart(line: string, p: nat)
  {
    IsRunStartFrom(line, 0, p)
  }

  /** The end of the run of non-delimiters that begins at `i`. */
  function RunEnd(line: string, i: nat): (j: nat)
    requires i <= |line|
    ensures i <= j <= |line|
    ensures forall k :: i <= k < j ==> !IsDelimiter(line[k])
    ensures j == |line| || IsDelimiter(line[j])
    decreases |line| - i
  {
    if i == |line| || IsDelimiter(line[i]) then i else RunEnd(line, i + 1)
  }

  function StartsOf(ts: seq<Token>): set<nat>
  {
    set k | 0 <= k < |ts| :: ts[k].start
  }

  lemma StartsOfCons(t: Token, rest: seq<Token>)
    ensures StartsOf([t] + rest) == {t.start} + StartsOf(rest)
  {
    var ts := [t] + rest;
    forall x | x in StartsOf(ts) ensures x in {t.start} + StartsOf(rest) {
      var k :| 0 <= k < |ts| && ts[k].start == x;
      if k > 0 {
        assert rest[k - 1].start == x;
      }
    }
    forall x | x in StartsOf(rest) ensures x in StartsOf(ts) {
      var k :| 0 <= k < |rest| && rest[k].start == x;
      assert ts[k + 1].start == x;
    }
    assert ts[0].start == t.start;
  }

  /** Skipping a delimiter at `i` loses no run start. */
  lemma RunStartsPastDelimiter(line: string, i: nat, next: nat)
    requires i < |line| && IsDelimiter(line[i]) && next == i + 1
    ensures (set p: nat | p < |line| && IsRunStartFrom(line, i, p)) == (set p: nat | p < |line| && IsRunStartFrom(line, next, p))
  {
  }

  /** The run starting at `i` is followed by no run start before its end. */
  lemma RunStartsPastRun(line: string, i: nat)
    requires i < |line| && !IsDelimiter(line[i])
    ensures (set p: nat | p < |line| && IsRunStartFrom(line, i, p)) == {i} + (set p: nat | p < |line| && IsRunStartFrom(line, RunEnd(line, i), p))
  {
  }

  /** A run start past the end of the run at `i` is a run start from `i`, and lies beyond that end. */
  lemma RunStartsBeyondRun(line: string, i: nat, rest: seq<Token>)
    requires i < |line| && !IsDelimiter(line[i])
    requires forall k :: 0 <= k < |rest| ==> IsRunStartFrom(line, RunEnd(line, i), rest[k].start)
    ensures RunEnd(line, i) > i
    ensures forall k :: 0 <= k < |rest| ==> IsRunStartFrom(line, i, rest[k].start) && RunEnd(line, i) < rest[k].start
  {
  }

  /** Putting the run at `i` in front keeps every token a run taken from the line at its offset. */
  lemma RunThenTokensAreRuns(line: string, i: nat, rest: seq<Token>)
    requires i < |line| && !IsDelimiter(line[i])
    requires forall k :: 0 <= k < |rest| ==>
               && IsRunStartFrom(line, RunEnd(line, i), rest[k].start)
               && rest[k].text == line[rest[k].start..RunEnd(line, rest[k].start)]
               && |rest[k].text| > 0
    ensures var ts := [Token(line[i..RunEnd(line, i)], i)] + rest;
            forall k :: 0 <= k < |ts| ==>
              && IsRunStartFrom(line, i, ts[k].start)
              && ts[k].text == line[ts[k].start..RunEnd(line, ts[k].start)]
              && |ts[k].text| > 0
  {
  }

  /** Putting the run at `i` in front keeps the offsets increasing. */
  lemma RunThenTokensOrdered(line: string, i: nat, rest: seq<Token>)
    requires i < |line| && !IsDelimiter(line[i])
    requires forall k :: 0 <= k < |rest| ==> IsRunStartFrom(line, RunEnd(line, i), rest[k].start)
    requires forall k, l :: 0 <= k < l < |rest| ==> rest[k].start < rest[l].start
    ensures var ts := [Token(line[i..RunEnd(line, i)], i)] + rest;
            forall k, l :: 0 <= k < l < |ts| ==> ts[k].start < ts[l].start
  {
  }

  /**
    The tokens `strtok` returns when it resumes at position `i`: each is a
    maximal non-empty run of non-delimiters, taken from the line at its
    offset, in increasing offset order, and every run that starts at or
    after `i` is returned.
  */
  function TokensFrom(line: string, i: nat): (ts: seq<Token>)
    requires i <= |line|
    ensures forall k :: 0 <= k < |ts| ==>
              && IsRunStartFrom(line, i, ts[k].start)
              && ts[k].text == line[ts[k].start..RunEnd(line, ts[k].start)]
              && |ts[k].text| > 0
    ensures forall k, l :: 0 <= k < l < |ts| ==> ts[k].start < ts[l].start
    ensures StartsOf(ts) == set p: nat | p < |line| && IsRunStartFrom(line, i, p)
    decreases |line| - i
  {
    if i == |line| then
      assert forall p: nat :: !IsRunStartFrom(line, i, p);
      []
    else if IsDelimiter(line[i]) then
      RunStartsPastDelimiter(line, i, i + 1);
      TokensFrom(line, i + 1)
    else
      var rest := TokensFrom(line, RunEnd(line, i));
      var t := Token(line[i..RunEnd(line, i)], i);
      RunThenTokensAreRuns(line, i, rest);
      RunThenTokensOrdered(line, i, rest);
      StartsOfCons(t, rest);
      RunStartsPastRun(line, i);
      [t] + rest
  }

  /**
    The tokens of a line, as the `strtok` loop yields them: exactly the
    maximal runs of characters other than space, tab and newline, in
    order of their offsets.
  */
  function Tokens(line: string): (ts: seq<Token>)
    ensures forall k :: 0 <= k < |ts| ==>
              && IsRunStart(line, ts[k].start)
              && ts[k].text == line[ts[k].start..RunEnd(line, ts[k].start)]
              && |ts[k].text| > 0
    ensures forall k, l :: 0 <= k < l < |ts| ==> ts[k].start < ts[l].start
    ensures StartsOf(ts) == set p: nat | p < |line| && IsRunStart(line, p)
  {
    TokensFrom(line, 0)
  }

  /** No token holds a delimiter. */
  lemma TokensHoldNoDelimiter(line: string, k: nat, c: nat)
    requires k < |Tokens(line)| && c < |Tokens(line)[k].text|
    ensures !IsDelimiter(Tokens(line)[k].text[c])
  {
    var t := Tokens(line)[k];
    assert t.text[c] == line[t.start + c];
  }
}
