/**
  Loading the dictionary (`loadDictionary`) and the binary search over a
  case-insensitively sorted entry list (`binarySearch`), which the checker
  itself never calls: the matcher scans linearly.
*/
module Dictionary {
  import opened CType
  import opened Stdio

  /**
    The entry one `fgets` chunk becomes: `strcspn` ends it at the first
    newline or NUL, and `strdup` copies that much.
  */
  function EntryLength(chunk: string, i: nat): (k: nat)
    requires i <= |chunk|
    requires forall j :: 0 <= j < i ==> chunk[j] != '\n' && chunk[j] != '\0'
    ensures i <= k <= |chunk|
    ensures forall j :: 0 <= j < k ==> chunk[j] != '\n' && chunk[j] != '\0'
    ensures k == |chunk| || chunk[k] == '\n' || chunk[k] == '\0'
    decreases |chunk| - i
  {
    if i == |chunk| || chunk[i] == '\n' || chunk[i] == '\0' then i
    else EntryLength(chunk, i + 1)
  }

  function EntryOf(chunk: string): (e: string)
    ensures e <= chunk && '\n' !in e && '\0' !in e
    ensures |e| == |chunk| || chunk[|e|] == '\n' || chunk[|e|] == '\0'
  {
    var k := EntryLength(chunk, 0);
    assert forall c :: c in chunk[..k] ==> c != '\n' && c != '\0';
    chunk[..k]
  }

  function Entries(chunks: seq<string>): (d: seq<string>)
    ensures |d| == |chunks|
    ensures forall k :: 0 <= k < |d| ==> d[k] == EntryOf(chunks[k])
  {
    if |chunks| == 0 then [] else [EntryOf(chunks[0])] + Entries(chunks[1..])
  }

  /**
    `loadDictionary` on the text of the dictionary file: one entry per
    `fgets` chunk of at most 45 characters, in file order, case preserved,
    nothing sorted or removed.  No entry holds a newline or a NUL or
    reaches the size of the word buffer.
  */
  function LoadDictionary(text: string): (d: seq<string>)
    ensures |d| == |FgetsChunks(text, WordLength - 1)|
    ensures forall k :: 0 <= k < |d| ==> |d[k]| < WordLength && '\n' !in d[k] && '\0' !in d[k]
  {
    Entries(FgetsChunks(text, WordLength - 1))
  }

  /** A file holding each word on its own line, every line ended by a newline. */
  function Unlines(ws: seq<string>): string
  {
    if |ws| == 0 then [] else ws[0] + "\n" + Unlines(ws[1..])
  }

  /**
    Words shorter than 45 characters with no newline or NUL, one per line,
    load back as exactly those words in the same order; in particular an
    empty line gives an empty entry and the final newline adds none.
  */
  lemma {:induction false} LoadUnlinesRoundTrip(ws: seq<string>)
    requires forall k :: 0 <= k < |ws| ==> |ws[k]| < WordLength - 1 && '\n' !in ws[k] && '\0' !in ws[k]
    ensures LoadDictionary(Unlines(ws)) == ws
  {
    if |ws| > 0 {
      ShortLineIsOneChunk(ws[0], Unlines(ws[1..]), WordLength - 1);
      assert Unlines(ws) == ws[0] + "\n" + Unlines(ws[1..]);
      var chunks := FgetsChunks(Unlines(ws), WordLength - 1);
      assert chunks[1..] == FgetsChunks(Unlines(ws[1..]), WordLength - 1);
      EntryOfLine(ws[0]);
      LoadUnlinesRoundTrip(ws[1..]);
      assert ws == [ws[0]] + ws[1..];
    }
  }

  /**
    The same holds when the last line has no newline after it: that line
    loads as one more entry, even at the full 45 characters.
  */
  lemma {:induction false} LoadUnterminatedRoundTrip(ws: seq<string>, last: string)
    requires forall k :: 0 <= k < |ws| ==> |ws[k]| < WordLength - 1 && '\n' !in ws[k] && '\0' !in ws[k]
    requires 0 < |last| <= WordLength - 1 && '\n' !in last && '\0' !in last
    ensures LoadDictionary(Unlines(ws) + last) == ws + [last]
    decreases |ws|
  {
    if |ws| == 0 {
      assert Unlines(ws) + last == last;
      FinalLineIsOneEntry(last);
    } else {
      var tail := Unlines(ws[1..]) + last;
      UnlinesThen(ws, last);
      ShortLineIsOneEntry(ws[0], tail);
      LoadUnterminatedRoundTrip(ws[1..], last);
      assert ws + [last] == [ws[0]] + (ws[1..] + [last]);
    }
  }

  lemma UnlinesThen(ws: seq<string>, last: string)
    requires |ws| > 0
    ensures Unlines(ws) + last == ws[0] + "\n" + (Unlines(ws[1..]) + last)
  {
  }

  /** A line shorter than 45 characters, read with its newline, is the first entry. */
  lemma ShortLineIsOneEntry(line: string, rest: string)
    requires |line| < WordLength - 1 && '\n' !in line && '\0' !in line
    ensures LoadDictionary(line + "\n" + rest) == [line] + LoadDictionary(rest)
  {
    ShortLineIsOneChunk(line, rest, WordLength - 1);
    LoadDictionaryCons(line + "\n" + rest, line + "\n", rest);
    EntryOfLine(line);
  }

  /** A file that is one line of at most 45 characters, with no newline, is one entry. */
  lemma FinalLineIsOneEntry(line: string)
    requires 0 < |line| <= WordLength - 1 && '\n' !in line && '\0' !in line
    ensures LoadDictionary(line) == [line]
  {
    FinalLineIsOneChunk(line, WordLength - 1);
    LoadDictionaryCons(line, line, "");
    assert EntryOf(line) == line;
  }

  /** `cat`, then `dog` with no final newline, loads as `cat`, `dog`. */
  lemma UnterminatedExample()
    ensures LoadDictionary("cat\ndog") == ["cat", "dog"]
  {
    assert Unlines(["cat"]) == "cat\n" by { assert Unlines(["cat"][1..]) == []; }
    assert Unlines(["cat"]) + "dog" == "cat\ndog";
    LoadUnterminatedRoundTrip(["cat"], "dog");
  }

  /** A line without newline or NUL, read with its newline, becomes the line itself. */
  lemma EntryOfLine(line: string)
    requires '\n' !in line && '\0' !in line
    ensures EntryOf(line + "\n") == line
  {
    var chunk := line + "\n";
    assert forall j :: 0 <= j < |line| ==> chunk[j] == line[j] && chunk[j] != '\n' && chunk[j] != '\0';
    assert chunk[|line|] == '\n';
    assert chunk[..|line|] == line;
  }

  /** A line of exactly 45 characters and its newline give that line and then an extra empty entry. */
  lemma FullLineAddsEmptyEntry(line: string, rest: string)
    requires |line| == WordLength - 1 && '\n' !in line && '\0' !in line
    ensures LoadDictionary(line + "\n" + rest) == [line, ""] + LoadDictionary(rest)
  {
    LongLineSplits(line, rest, WordLength - 1);
    assert line[..WordLength - 1] == line;
    assert line[WordLength - 1..] + "\n" + rest == "\n" + rest;
    LoadDictionaryCons(line + "\n" + rest, line, "\n" + rest);
    assert EntryOf(line) == line;
    EmptyLineIsEmptyEntry(rest);
  }

  /** An empty line gives an empty entry. */
  lemma EmptyLineIsEmptyEntry(rest: string)
    ensures LoadDictionary("\n" + rest) == [""] + LoadDictionary(rest)
  {
    ShortLineIsOneChunk("", rest, WordLength - 1);
    assert "" + "\n" + rest == "\n" + rest;
    LoadDictionaryCons("\n" + rest, "\n", rest);
    EntryOfLine("");
  }

  /** The first `fgets` chunk of the text gives the first entry, and the rest of the text the others. */
  lemma LoadDictionaryCons(text: string, chunk: string, rest: string)
    requires FgetsChunks(text, WordLength - 1) == [chunk] + FgetsChunks(rest, WordLength - 1)
    ensures LoadDictionary(text) == [EntryOf(chunk)] + LoadDictionary(rest)
  {
    var chunks := FgetsChunks(text, WordLength - 1);
    assert chunks[1..] == FgetsChunks(rest, WordLength - 1);
  }

  /** A line longer than 45 characters is split: its first 45 characters form an entry of their own. */
  lemma LongLineSplitsEntry(line: string, rest: string)
    requires |line| > WordLength - 1 && '\n' !in line && '\0' !in line
    ensures LoadDictionary(line + "\n" + rest)
         == [line[..WordLength - 1]] + LoadDictionary(line[WordLength - 1..] + "\n" + rest)
  {
    LongLineSplits(line, rest, WordLength - 1);
    var chunks := FgetsChunks(line + "\n" + rest, WordLength - 1);
    assert EntryOf(line[..WordLength - 1]) == line[..WordLength - 1];
    assert chunks[1..] == FgetsChunks(line[WordLength - 1..] + "\n" + rest, WordLength - 1);
  }

  /** The text with every newline removed. */
  function DropNewlines(s: string): string
  {
    if |s| == 0 then [] else (if s[0] == '\n' then [] else [s[0]]) + DropNewlines(s[1..])
  }

  lemma {:induction false} DropNewlinesAppend(a: string, b: string)
    ensures DropNewlines(a + b) == DropNewlines(a) + DropNewlines(b)
    decreases |a|
  {
    if |a| > 0 {
      assert (a + b)[1..] == a[1..] + b;
      DropNewlinesAppend(a[1..], b);
    } else {
      assert a + b == b;
    }
  }

  /** A line read with its newline: the entry is the line, and so is the text without newlines. */
  lemma LineChunkEntry(line: string)
    requires '\n' !in line && '\0' !in line
    ensures EntryOf(line + "\n") == DropNewlines(line + "\n")
  {
    EntryOfLine(line);
    NoNewlineKept(line);
    DropNewlinesAppend(line, "\n");
    assert DropNewlines("\n") == [];
  }

  /** A chunk with neither newline nor NUL is its own entry. */
  lemma PlainChunkEntry(chunk: string)
    requires '\n' !in chunk && '\0' !in chunk
    ensures EntryOf(chunk) == DropNewlines(chunk)
  {
    NoNewlineKept(chunk);
  }

  /** A chunk without NUL loses only its final newline. */
  lemma ChunkEntryDropsNewline(chunk: string)
    requires |chunk| > 0 && '\n' !in chunk[..|chunk| - 1] && '\0' !in chunk
    ensures EntryOf(chunk) == DropNewlines(chunk)
  {
    var pre := chunk[..|chunk| - 1];
    assert chunk == pre + [chunk[|chunk| - 1]];
    if chunk[|chunk| - 1] == '\n' {
      LineChunkEntry(pre);
    } else {
      PlainChunkEntry(chunk);
    }
  }

  lemma {:induction false} NoNewlineKept(s: string)
    requires '\n' !in s
    ensures DropNewlines(s) == s
  {
    if |s| > 0 {
      assert s[0] != '\n';
      NoNewlineKept(s[1..]);
      assert s == [s[0]] + s[1..];
    }
  }

  /**
    In a dictionary file without NUL characters, the entries together hold
    every character of the file except its newlines, in file order.
  */
  lemma {:induction false} EntriesAreTextWithoutNewlines(text: string)
    requires '\0' !in text
    ensures Flatten(LoadDictionary(text)) == DropNewlines(text)
  {
    ChunksEntries(FgetsChunks(text, WordLength - 1));
  }

  lemma {:induction false} ChunksEntries(chunks: seq<string>)
    requires forall k :: 0 <= k < |chunks| ==> |chunks[k]| > 0 && '\n' !in chunks[k][..|chunks[k]| - 1]
    requires '\0' !in Flatten(chunks)
    ensures Flatten(Entries(chunks)) == DropNewlines(Flatten(chunks))
  {
    if |chunks| > 0 {
      assert Flatten(chunks) == chunks[0] + Flatten(chunks[1..]);
      ChunkEntryDropsNewline(chunks[0]);
      ChunksEntries(chunks[1..]);
      DropNewlinesAppend(chunks[0], Flatten(chunks[1..]));
      assert Entries(chunks)[1..] == Entries(chunks[1..]);
    }
  }

  /** The entries `d[lo..hi]` (both ends included) are in `strcasecmp` order. */
  predicate CaseSorted(d: seq<string>, lo: int, hi: int)
  {
    forall i, j :: 0 <= lo <= i < j <= hi < |d| ==> CaseCompare(d[i], d[j]) <= 0
  }

  /**
    `binarySearch(d, low, high, word)`: over a range sorted in `strcasecmp`
    order, finds whether some entry with index in `low..high` equals the word
    ignoring case.  An empty range (`low > high`) finds nothing and reads
    nothing.
  */
  method BinarySearch(d: seq<string>, low: int, high: int, word: string) returns (found: bool)
    requires low <= high ==> 0 <= low && high < |d|
    requires CaseSorted(d, low, high)
    ensures found <==> exists i :: low <= i <= high && CaseEq(d[i], word)
  {
    var lo, hi := low, high;
    while lo <= hi
      invariant low <= lo && hi <= high
      invariant lo == low || lo <= high + 1
      invariant hi == high || low - 1 <= hi
      invariant forall i :: low <= i < lo ==> CaseCompare(word, d[i]) > 0
      invariant forall i :: hi < i <= high ==> CaseCompare(word, d[i]) < 0
      decreases hi - lo + 1
    {
      var mid := lo + (hi - lo) / 2;
      var res := CaseCompare(word, d[mid]);
      if res == 0 {
        CaseCompareZeroIffCaseEq(word, d[mid]);
        assert CaseEq(d[mid], word);
        return true;
      } else if res < 0 {
        forall j | mid <= j <= hi
          ensures CaseCompare(word, d[j]) < 0
        {
          if j > mid {
            CaseCompareTransitive(word, d[mid], d[j]);
          }
        }
        hi := mid - 1;
      } else {
        forall j | lo <= j <= mid
          ensures CaseCompare(word, d[j]) > 0
        {
          CaseCompareAntisymmetric(word, d[mid]);
          CaseCompareAntisymmetric(word, d[j]);
          if j < mid {
            CaseCompareTransitive(d[j], d[mid], word);
          }
        }
        lo := mid + 1;
      }
    }
    forall i | low <= i <= high
      ensures !CaseEq(d[i], word)
    {
      CaseCompareZeroIffCaseEq(word, d[i]);
    }
    return false;
  }
}
