# spchk token-checking engine in Dafny

This project models the token-checking engine of the `spchk` spelling checker
and proves properties about it. The checker loads a word list (the
dictionary) and reads text files line by line. It splits each line into
whitespace-separated tokens and strips punctuation from each token. Hyphenated
compounds are split into segments, and each word or segment is looked up with
a capitalisation rule. Every token that fails is reported with its line,
column and original text.

Every operation is a pure function over `string` (`seq<char>`), except for a
few small methods: `Checker.CheckLine`, `Checker.CheckLines` and
`Checker.CheckSpelling`, which model the loops and error flag of
`checkSpelling`, and `Dictionary.BinarySearch`. Characters are classified
as in the C library under the "C" locale: `isalnum` is `[A-Za-z0-9]`,
`isupper` is `[A-Z]`, and `strcasecmp` folds `A-Z` onto `a-z`. Any other
character is punctuation to these classes.

Modules, following the program's structure:

- `CType`: `isdigit`, `isupper`, `isalnum`, `tolower`, and the sign of `strcasecmp`. Lemmas prove that `strcasecmp` is a total preorder whose equality is case-insensitive equality.
- `Classify`: `isNumber`, `isAllUpperCase`, `isCapitalized`. Each is written as the loop the C code runs, and its contract states the shape of the strings it accepts.
- `Matcher`: `isWordInDictionary`. The scan is modelled with both of its flags and with the "modified" copy of the word.
- `Stdio`: `fgets` chunking and the C-string view of a buffer (a buffer's content ends at its first NUL), plus the two buffer sizes.
- `Dictionary`: `loadDictionary` on the dictionary file's text, and the unused `binarySearch`.
- `Tokenizer`: the `strtok(line, " \t\n")` loop, as a pure split into maximal runs, each with its 0-based offset.
- `Strip`: `stripPunctuationAndCheck`, as a function from a token, its line number and its offset to an optional report.
- `Checker`: the line and token loops of `checkSpelling`, and the file-wide error flag.
- `PathList`: `push` and the order in which `main` checks the files.

Behaviour of the code that a reader might not expect, modelled as written:

- The dictionary is not sorted. `isWordInDictionary` scans it linearly, and `binarySearch` is never called.
- The "normalised variant" lookup never sees a normalised word. `toLowerCase(modifiedWord + 1)` returns a new buffer, and the code throws that buffer away. In any case `strcasecmp` ignores case, so even the intended variant would add nothing.
- Lines are split at space, tab and newline. A carriage return stays inside its token.
- Line numbers count `fgets` chunks of at most 1023 characters, not text lines. A line of 1023 or more characters therefore counts as several lines: even at exactly 1023 characters, its newline is read as a chunk of its own.
- A cleaned word longer than 45 characters is not truncated or rejected. It overflows a fixed buffer, so `Checker.CheckSpelling` requires that every cleaned word in the file fits (see `Strip.WithinWordBuffer`).

## Model

| member | source | states |
|---|---|---|
| CType.CaseCompare | spchk.c:317 | the sign of `strcasecmp` is -1, 0 or 1, and a string compares equal to itself |
| CType.CaseCompareZeroIffCaseEq | spchk.c:317-320 | `strcasecmp` returns 0 exactly when the two strings have the same length and agree character by character after folding `A-Z` to `a-z` |
| CType.CaseCompareAntisymmetric | spchk.c:317-325 | swapping the arguments of `strcasecmp` negates its sign |
| CType.CaseCompareTransitive | spchk.c:317-325 | the `strcasecmp` order is transitive, and the result is strict if either step is strict |
| Classify.ScanNumber | spchk.c:149-166 | the digit loop, started with only digits behind it, accepts exactly a non-empty run of digits, optionally followed by one final `.` that has at least one digit before it |
| Classify.IsNumber | spchk.c:140-167 | `isNumber(s)` holds iff `s`, with at most one leading `+` or `-` dropped, is digits or digits followed by one final `.` |
| Classify.NumberHasNoLetter | spchk.c:140-167 | a string `isNumber` is meant to accept holds only digits, a sign and a period |
| Classify.NumberExamples | spchk.c:140-167 | `123`, `-45`, `+7` and `3.` are numbers; the empty string, `-`, `.`, `-.`, `12.3`, `12a` and `--5` are not |
| Classify.IsAllUpperCase | spchk.c:353-360 | holds iff every character of the word is `A`..`Z`, which the empty word satisfies |
| Classify.IsCapitalized | spchk.c:362-372 | holds iff the word has at least two characters, the first is `A`..`Z`, and no later character is |
| Matcher.ScanDictionary | spchk.c:382-396 | the exact flag is set iff the word is among the remaining entries; when it is not set, the case-insensitive flag is set iff some remaining entry matches the word or the "modified" copy without regard to case |
| Matcher.IsWordInDictionary | spchk.c:374-406 | a word is accepted iff some entry equals it exactly, or some entry matches it case-insensitively and the word is all-uppercase or capitalized |
| Matcher.ExactEntryAccepted | spchk.c:383-386 | an exact copy of an entry is always accepted |
| Matcher.UpperOrCapitalizedVariantAccepted | spchk.c:388-391 | an all-uppercase or capitalized word that matches an entry case-insensitively is accepted |
| Matcher.LowercaseNeedsExactEntry | spchk.c:400-405 | a non-empty word with no uppercase letter is accepted iff it is an entry exactly, so `paris` is rejected by a dictionary holding only `Paris` |
| Matcher.MixedCaseNeedsExactEntry | spchk.c:400-405 | a word whose first character is not uppercase but a later one is, is accepted iff it is an entry exactly |
| Matcher.EmptyDictionaryRejects | spchk.c:382-405 | the empty dictionary rejects every word |
| Matcher.MatchIgnoresEntryOrder | spchk.c:382-396 | reordering the entries does not change any lookup |
| Matcher.MatchExamples | spchk.c:374-406 | `Cat` matches `cat`, `PARIS` matches `paris`, `dogg` matches nothing in `cat`/`dog`, `paris` does not match `Paris`, and `cAT` does not match `cat` |
| Stdio.FgetsLength | spchk.c:98 | one `fgets` call takes the characters up to and including the first newline, at most the buffer's room, and at most what is left of the file |
| Stdio.FgetsChunks | spchk.c:97-98 | the chunks are non-empty, hold at most the buffer's room, hold a newline only as their last character, and concatenate back to the whole text; every chunk but the last fills the buffer's room or ends with a newline |
| Stdio.ShortLineIsOneChunk | spchk.c:98 | a line shorter than the buffer's room is read in one call, together with its newline |
| Stdio.FinalLineIsOneChunk | spchk.c:98 | a last line no longer than the buffer's room with no newline after it is read in one call |
| Stdio.LongLineSplits | spchk.c:98 | from a line of at least the buffer's room, the first call returns exactly that many characters and leaves the rest for the next call |
| Stdio.CString | spchk.c:290 | the string a buffer holds is the prefix of the buffer up to its first NUL |
| Dictionary.EntryOf | spchk.c:99-100 | the entry made from a chunk is the prefix before its first newline or NUL, so it contains neither |
| Dictionary.LoadDictionary | spchk.c:93-124 | there is one entry per 45-character `fgets` chunk, and no entry contains a newline or NUL or reaches the word buffer's size |
| Dictionary.LoadUnlinesRoundTrip | spchk.c:97-124 | newline-terminated lines of fewer than 45 characters load back as exactly those lines, in file order and with case preserved; an empty line gives an empty entry, and the final newline adds no entry |
| Dictionary.LoadUnterminatedRoundTrip | spchk.c:97-124 | the same round trip when the last line has no final newline: that line, up to the full 45 characters, loads as one more entry |
| Dictionary.UnterminatedExample | spchk.c:97-124 | `cat`, a newline and then `dog` with no final newline load as `cat`, `dog` |
| Dictionary.ShortLineIsOneEntry | spchk.c:97-123 | a line shorter than 45 characters, read with its newline, is the first entry and the rest of the file gives the others |
| Dictionary.FinalLineIsOneEntry | spchk.c:97-123 | a file that is one line of at most 45 characters without a newline loads as that one entry |
| Dictionary.EntryOfLine | spchk.c:99-100 | a line read with its newline becomes the line without the newline |
| Dictionary.FullLineAddsEmptyEntry | spchk.c:93-100 | a line of exactly 45 characters plus its newline gives that line and then an extra empty entry |
| Dictionary.LongLineSplitsEntry | spchk.c:93-100 | a line longer than 45 characters is split, and its first 45 characters form an entry of their own |
| Dictionary.LoadDictionaryCons | spchk.c:97-123 | the first `fgets` chunk of the file gives the first entry, and the rest of the file gives the remaining entries in order |
| Dictionary.EmptyLineIsEmptyEntry | spchk.c:97-123 | an empty line gives an empty entry, followed by the entries of the rest of the file |
| Dictionary.LineChunkEntry | spchk.c:99-100 | a chunk that is a line followed by its newline becomes the chunk with that newline removed |
| Dictionary.PlainChunkEntry | spchk.c:99-100 | a chunk with no newline or NUL becomes an entry unchanged |
| Dictionary.ChunkEntryDropsNewline | spchk.c:99-100 | a chunk without NUL loses only its final newline |
| Dictionary.EntriesAreTextWithoutNewlines | spchk.c:97-124 | if the file has no NUL, the entries concatenated are the file's text with every newline removed and nothing else changed |
| Dictionary.BinarySearch | spchk.c:314-328 | if `d[low..high]` is sorted in `strcasecmp` order, the search returns true iff some entry with index between `low` and `high` equals the word ignoring case; an empty range reads nothing, and the range shrinks on every step |
| Tokenizer.TokensFrom | spchk.c:290-298 | when `strtok` resumes at a position, it returns one token for each maximal run of non-delimiters that starts there or later, each with its text and offset, in increasing offset order |
| Tokenizer.Tokens | spchk.c:290-297 | a line's tokens are exactly its maximal runs of characters other than space, tab and newline; each token has its 0-based offset, and the offsets increase |
| Tokenizer.TokensHoldNoDelimiter | spchk.c:290-297 | no token contains a space, tab or newline, so a carriage return stays in its token |
| Strip.LeadingPunctuation | spchk.c:212-214 | the skipped prefix is the longest run of characters that are neither alphanumeric nor `-` |
| Strip.Remainder | spchk.c:213-214 | what is left is a suffix of the token, every dropped character is neither alphanumeric nor `-`, and what is left is empty or starts with an alphanumeric or `-` |
| Strip.Skipped | spchk.c:216-219 | a token that the skip rule drops holds no letter, so every token with a letter goes on to a lookup |
| Strip.CopyWord | spchk.c:225-233 | the copied word is the longest prefix in which each character is alphanumeric, or is `-` followed by an alphanumeric; the hyphen flag is set iff the word contains `-` |
| Strip.CleanedShape | spchk.c:226-233 | the cleaned word holds only alphanumerics and hyphens, never ends in `-`, never contains `--`, and stops where the copy loop's condition first fails |
| Strip.Segments | spchk.c:239-255 | the segment loop yields segments without hyphens, and it yields none exactly for the empty word |
| Strip.SegmentsJoin | spchk.c:239-255 | for a non-empty word that does not end in `-`, joining the segments with `-` gives the word back, so they are exactly the pieces between its hyphens |
| Strip.SegmentsKnown | spchk.c:241-255 | the loop that stops at the first rejected segment passes iff the dictionary accepts every segment |
| Strip.Valid | spchk.c:236-258 | the cleaned word passes iff, when it holds a hyphen, every piece between its hyphens is accepted, and otherwise the whole word is accepted |
| Strip.CheckToken | spchk.c:206-265 | a report, when produced, carries the line number, the column `start + 1` taken before leading punctuation is skipped, and the unstripped token |
| Strip.ReportedIff | spchk.c:236-264 | a token is reported iff it is not skipped and either it has a hyphen and some segment is rejected, or it has no hyphen and the whole cleaned word is rejected (even when that word is empty) |
| Strip.SkippedNeverReported | spchk.c:216-219 | a token whose remainder is empty, all hyphens or a number is never reported, whatever the dictionary holds |
| Strip.NumberNeverReported | spchk.c:217-218 | a token whose remainder is a number is never reported, whatever the dictionary holds |
| Strip.EmptyDictionaryReportsUnskipped | spchk.c:216-264 | with the empty dictionary, a token is reported iff it is not skipped, so the skip rule alone decides which tokens reach a lookup |
| Strip.HyphenatedValidIffSegments | spchk.c:237-255 | a hyphenated token passes iff each piece between its hyphens is accepted |
| Strip.LeadingHyphenNeedsEmptyEntry | spchk.c:239-252 | a cleaned word that starts with `-` has an empty first segment, so the token is reported unless the empty string is an entry |
| Strip.ExactCleanedWordAccepted | spchk.c:256-258 | a token whose cleaned word has no hyphen and is spelled exactly as an entry is not reported |
| Strip.SkippedExamples | spchk.c:213-219 | `3.`, `(+7`, `--` and `...` are skipped |
| Strip.SignedNumberSkipped | spchk.c:213-218 | in `(+7`, both the parenthesis and the sign are leading punctuation, so what is left is the number `7` and the token is skipped |
| Strip.TrailingCommaExample | spchk.c:213-233 | `12,` is not skipped, because the number test sees the comma, and it is looked up as `12` |
| Strip.HyphenPeriodExample | spchk.c:213-233 | `-.` is not skipped, and its cleaned word is empty |
| Strip.WellKnownExample | spchk.c:239-255 | `well-known` is checked as the segments `well` and `known` |
| Strip.MisspelledWordExample | spchk.c:206-265 | with the dictionary `Hello`, `world`, the token `wrold!!` at offset 7 is reported at column 8 as `wrold!!` |
| Strip.WroldIsCheckedAsWrold | spchk.c:213-233 | `wrold!!` is not skipped, and its trailing `!!` is stripped without copying a hyphen, leaving `wrold` |
| Strip.WroldRejected | spchk.c:374-406 | `wrold` is neither an entry of `Hello`, `world` nor a case variant of one |
| Checker.FileLines | spchk.c:288-290 | there is one line per 1023-character `fgets` chunk, and each line is its chunk up to the first NUL, or the whole chunk when it has none |
| Checker.FileLinesWithoutNul | spchk.c:288-290 | the lines of a file without NUL concatenate back to its whole text |
| Checker.TokenReports | spchk.c:293-298 | every report of a line's tokens carries that line's number |
| Checker.LineReports | spchk.c:290-298 | every report of a line carries that line's number |
| Checker.TokenReportsSnoc | spchk.c:293-298 | checking one more token appends that token's report, if it has one, after the reports of the tokens before it |
| Checker.LineReportsLocated | spchk.c:293-298 | every report of a line carries that line's number and the column and original text of one of its tokens, and `stripPunctuationAndCheck` on that token produces exactly this report |
| Checker.LineReportsEmptyIff | spchk.c:293-298 | a line produces no report iff none of its tokens is reported |
| Checker.LinesReports | spchk.c:288-302 | every report of a sequence of lines carries a line number between 1 and the number of lines |
| Checker.FileReports | spchk.c:288-302 | every report of a file carries a line number between 1 and the number of `fgets` lines |
| Checker.LinesReportsSnoc | spchk.c:283-301 | the line at index `k` is checked with line number `k + 1`, and its reports follow those of the lines before it |
| Checker.LinesReportsEmptyIff | spchk.c:283-301 | a sequence of lines produces no report iff none of its lines, each checked with its own 1-based number, does |
| Checker.FileReportsLocated | spchk.c:283-302 | every report of a file names a line that exists, by its number, and gives the column and original text of a token on that line for which `stripPunctuationAndCheck` produces exactly this report |
| Checker.LinesReportsLocated | spchk.c:283-302 | every report of a sequence of lines names one of those lines, by its 1-based number, and one of that line's tokens, for which `stripPunctuationAndCheck` produces exactly this report |
| Checker.NoReportsIffNoTokenReported | spchk.c:305-307 | the "No spelling errors found" message appears for a file iff no token on any of its lines produced a report |
| Checker.CheckLine | spchk.c:290-298 | the token loop of one line prints that line's reports in order, and sets the error flag iff it printed at least one |
| Checker.CheckLines | spchk.c:283-302 | the `fgets` loop checks the line at index `k` as line `k + 1`, prints the reports of all lines in line order, and sets the error flag iff it printed at least one |
| Checker.CheckSpelling | spchk.c:283-307 | the file's reports are those of its lines in order, and the error flag, which is only ever set, is set iff at least one report was printed |
| PathList.Push | spchk.c:416-418 | after `push`, the list holds the new path followed by the old list, which is unchanged |
| PathList.PushAllReverses | spchk.c:51-52 | pushing paths in discovery order puts them in front of the list in reverse order |
| PathList.CheckOrder | spchk.c:63-67 | walking the list from its head checks files in reverse discovery order |

## Left out

- Argument parsing, `stat`, and the directory walk `dTraversal` are left out. This includes the dot-file and `.txt` filters and the path building. They are filesystem I/O, and the order `readdir` returns entries in depends on the OS. The model takes the discovered paths as a given sequence.
- Real file I/O is left out. The model takes the contents of each file as a given string. It does not model `fopen` and `fclose`, the failure to open the dictionary, or the `exit(EXIT_FAILURE)` when a file to check cannot be opened.
- Console output is left out. Reports are `Strip.Report` tuples, not `printf` lines. The "Opening file" banner is not modelled. The "No spelling errors found" message is modelled as the error flag.
- Memory management is left out: the `malloc`, `realloc` and `strdup` failure paths (including the failing `push`, which frees the path and leaves the list unchanged), `freeDictionary`, `freeList`, and the buffer that `toLowerCase` leaks. None of these affect the results.
- Strip.CheckToken: a cleaned word of more than 45 characters overflows the 46-byte `processedWord` and `segment` buffers, which is undefined behaviour. For such a word the model gives the verdict that an unbounded buffer would give. Only `Checker.CheckSpelling` requires `Checker.TextWithinBuffers`, and the other `Checker` lemmas hold for the model whatever the word lengths.
- Matcher.IsWordInDictionary treats `toLowerCase(modifiedWord + 1)` as having no effect. For the empty word, that call reads past the end of the copied string, which is undefined behaviour. The model does not represent this.
- `strtok`'s hidden global state is replaced by the pure split in `Tokenizer`.
- The model uses unbounded integers for line and column numbers. It does not model the overflow of the C `int` line counter on a file of more than 2^31 chunks.
- Non-ASCII characters are classified as punctuation. Passing a negative `char` to `isupper` or `isalnum` is undefined behaviour in C, and the model does not represent it.
- The dead helpers `isValidCapitalization`, `checkHyphenatedWord` and `isAllLowerCase` are not modelled. Nothing calls them.
