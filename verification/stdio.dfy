/**
  What the checker sees of a file through `fgets` and C strings: the text is
  read in chunks that end after a newline or when the buffer is full, and a
  chunk read into a C string ends at its first NUL character.
*/
module Stdio {

  /** `WORD_LENGTH`: the dictionary's read buffer and the cleaned-word buffer, terminator included. */
  const WordLength: nat := 46

  /** The size of the checker's line buffer, terminator included. */
  const LineBufferSize: nat := 1024

  /** Concatenation of a sequence of strings. */
  function Flatten(ss: seq<string>): string
  {
    if |ss| == 0 then [] else ss[0] + Flatten(ss[1..])
  }

  /** A character of one of the strings is a character of their concatenation. */
  lemma {:induction false} InFlatten(ss: seq<string>, k: nat, c: char)
    requires k < |ss| && c in ss[k]
    ensures c in Flatten(ss)
    decreases k
  {
    if k > 0 {
      InFlatten(ss[1..], k - 1, c);
    }
  }

  /**
    How many characters one `fgets` call with room for `n` characters takes
    from the start of `text`, scanning from position `i`: up to and including
    the first newline, at most `n`, at most what is left.
  */
  function FgetsLength(text: string, n: nat, i: nat): (k: nat)
    requires 0 < n && i < n && i < |text|
    requires '\n' !in text[..i]
    ensures i < k <= n && k <= |text|
    ensures '\n' !in text[..k - 1]
    ensures k == |text| || k == n || text[k - 1] == '\n'
    decreases n - i
  {
    if text[i] == '\n' || i + 1 == n || i + 1 == |text| then i + 1
    else
      assert text[..i + 1] == text[..i] + [text[i]];
      FgetsLength(text, n, i + 1)
  }

  /**
    The chunks successive `fgets` calls with room for `n` characters return
    until end of file.  Every chunk is non-empty, holds at most `n`
    characters and a newline only as its last one, and together they are the
    whole text.
  */
  function FgetsChunks(text: string, n: nat): (chunks: seq<string>)
    requires n > 0
    ensures Flatten(chunks) == text
    ensures forall k :: 0 <= k < |chunks| ==> 0 < |chunks[k]| <= n
    ensures forall k :: 0 <= k < |chunks| ==> '\n' !in chunks[k][..|chunks[k]| - 1]
    ensures forall k :: 0 <= k < |chunks| - 1 ==> |chunks[k]| == n || chunks[k][|chunks[k]| - 1] == '\n'
    decreases |text|
  {
    if |text| == 0 then []
    else
      var len := FgetsLength(text, n, 0);
      var rest := FgetsChunks(text[len..], n);
      assert ([text[..len]] + rest)[1..] == rest;
      assert text[..len] + text[len..] == text;
      [text[..len]] + rest
  }

  /** A chunk that is one full line: `fgets` returns a line of fewer than `n` characters with its newline. */
  lemma ShortLineIsOneChunk(line: string, rest: string, n: nat)
    requires n > 0 && |line| < n && '\n' !in line
    ensures FgetsChunks(line + "\n" + rest, n) == [line + "\n"] + FgetsChunks(rest, n)
  {
    var text := line + "\n" + rest;
    var len := FgetsLength(text, n, 0);
    assert forall j :: 0 <= j < |line| ==> text[j] == line[j] && text[j] != '\n';
    assert forall j :: 0 <= j < len - 1 ==> text[j] != '\n' by {
      forall j | 0 <= j < len - 1 ensures text[j] != '\n' {
        assert text[j] == text[..len - 1][j];
      }
    }
    assert text[|line|] == '\n';
    assert len == |line| + 1;
    assert text[..len] == line + "\n";
    assert text[len..] == rest;
  }

  /** A last line of at most `n` characters with no newline after it is read in one call. */
  lemma FinalLineIsOneChunk(line: string, n: nat)
    requires 0 < |line| <= n && '\n' !in line
    ensures FgetsChunks(line, n) == [line]
  {
    var len := FgetsLength(line, n, 0);
    assert len == |line|;
    assert line[..len] == line;
  }

  /** A line of `n` or more characters: the first call returns its first `n` characters. */
  lemma LongLineSplits(line: string, rest: string, n: nat)
    requires n > 0 && |line| >= n && '\n' !in line
    ensures FgetsChunks(line + "\n" + rest, n) == [line[..n]] + FgetsChunks(line[n..] + "\n" + rest, n)
  {
    var text := line + "\n" + rest;
    var len := FgetsLength(text, n, 0);
    assert text[..len] == line[..n];
    assert text[len..] == line[n..] + "\n" + rest;
  }

  /** The length of the C string held in `s`: the position of its first NUL, or its length. */
  function CLength(s: string, i: nat): (k: nat)
    requires i <= |s|
    requires '\0' !in s[..i]
    ensures i <= k <= |s|
    ensures '\0' !in s[..k]
    ensures k == |s| || s[k] == '\0'
    decreases |s| - i
  {
    if i == |s| || s[i] == '\0' then i
    else
      assert s[..i + 1] == s[..i] + [s[i]];
      CLength(s, i + 1)
  }

  /** The C string a buffer holds: everything before its first NUL. */
  function CString(s: string): (c: string)
    ensures c <= s && '\0' !in c
    ensures |c| == |s| || s[|c|] == '\0'
  {
    s[..CLength(s, 0)]
  }
}
