# zhseg segmentation engine in Dafny

zhseg is a small Chinese word segmenter. It reads a frequency dictionary with lines
like `12 哎哟 ai1yo1`. Then it splits each UTF-8 input line into tokens, choosing them
by dynamic programming over byte offsets, and prints the tokens separated by single
spaces. This project models the engine of `zhseg.cc`. `trunk/zhseg.cc` is the same file
with the same line numbers, so one model covers both copies. The model has three parts,
all in module `ZhSeg` (`zhseg.dfy`):

- **The punctuation classifier** `is_punctuation`: `IsPunctuation`.
- **`process`**, split the way the function itself is split:
  - The flag pass: `ComputeFlags` fills `is_ok` and `is_punc` over byte offsets.
  - The table fill: `FillTable`, with `ScanStart` for the inner loop over the
    candidates of one start, `TryCandidate` for one candidate, `ForcePunctuation`
    for the punctuation override, and `ScoreCandidate` with `LookUp` for the
    dictionary scoring. `FillTable` fills the table `m` of `(first, second)` cells
    in an array.
  - The backtracking: `Backtrack`, with `FillBuffer`, `CopyToken` and `CopyBackwards`. It walks the
    back lengths, writing each token backwards into a buffer of `2n` spaces through
    the cursor `c`, and finishes with `ReversePrefix`, which models `std::reverse`.
  - `Process` composes the three.
- **The line handling of `load_dict`**: `LoadDict` returns the updated dictionary map
  and accumulates `total`, one line at a time through `LoadOne`. `LoadLine` and `LoadLines` specify it.

Module `Utf8` (`utf8.dfy`) stands in for the `utf8.h` library, which is not part of
this model. It gives the RFC 3629 decoder (section 3 for the encoding, section 4 for the
byte syntax) that `utf8::next` performs on well-formed input.

The table fill is specified cell by cell by `TableSpec`:
- Cell 0 is `(0, 0.0)`.
- A cell that is not at a character boundary keeps `(0, -1999999)`.
- A cell after a space byte is `(1, score before the space)`.
- A cell after a punctuation character is `(its length, score before it)`.
- Every other boundary cell holds the best score among its scorable candidates, with
  the earliest start winning ties, or stays unreached.

`TableSpecUnique` shows that this determines the table. The backtracking is specified by
the chain of cut positions `Cuts` and by the output assembly `Assemble`. `Render` is
`Assemble` applied to the tokens of the chain.

Notes on what the code does:

- **Ties.** Candidates for one target cell arrive in increasing start order, and the
  comparison at line 137 is strict. So a tie keeps the earliest start, which is the
  longer token.
- **Bonus.** The bonus is `((j - i + 1) / 3 - 1) * (total * 2)`, using integer
  division of the candidate's byte length (lines 132-133). With a non-negative
  total it never decreases with length, so a longer word never loses its cell to a
  shorter one when its entry and prefix score are at least theirs (LongerNotLost).
- **First-candidate check.** The `is_ok[j + 1]` filter (line 110) runs before the
  first-candidate punctuation check (lines 115-125). So `cand` there is the whole
  first character, and `utf8::next` decodes exactly that character
  (`FirstCandidateIsWholeCodePoint`).
- **The explicit space test.** The space is punctuation (line 79), so the test
  `!is_first && is_punc[j]` (line 109) already stops the inner loop at a space after
  the first character, and the first character is never a space there. The test
  `us[j] == ' '` of line 111 is therefore never true (`ScanningStep`).
- **Spaces in the output.** Space tokens leave nothing in the output (the `c--` of
  line 154). Runs of input spaces therefore collapse, and leading and trailing spaces
  disappear (`AssembleMeaning`).
- **A line of spaces.** Every cell of such a line is a forced space cell (lines 99-103),
  whatever the scores, so the backtracking reaches 0, leaves `c == 0`, and
  `assert(c > 0)` aborts the program (`SpacesReachEveryOffset`, `Process`). The empty line never reaches `process`, because `main` prints it directly.

## Model

| member | source | states |
|---|---|---|
| ZhSeg.IsPunctuation | zhseg.cc:76-80 | holds exactly for `cp` in (0x3000, 0x3020], [0xFF1A, 0xFF1B], [0xFF0C, 0xFF0E] or `cp == 32` |
| ZhSeg.PunctuationWidth | zhseg.cc:76-80 | every punctuation code point other than the ASCII space encodes in three bytes, and the ideographic space U+3000 is not punctuation |
| ZhSeg.ComputeFlags | zhseg.cc:83-91 | on well-formed UTF-8, `is_ok[p]` holds exactly at character starts and at `p == n`; `is_punc[p]` holds exactly where a punctuation character starts |
| ZhSeg.FirstCandidateIsWholeCodePoint | zhseg.cc:108-118 | the first candidate that passes the `is_ok[j + 1]` filter is the whole first character: it ends at a boundary, nothing inside it is a boundary, a space or punctuation, and it decodes to the same code point as the character in the line |
| ZhSeg.SkipStep | zhseg.cc:110 | passing over a target that is not a character boundary keeps the table invariant |
| ZhSeg.ScoreStep | zhseg.cc:127-141 | a scorable candidate replaces its target cell exactly when it scores strictly higher, and the table invariant moves on to the next target |
| ZhSeg.PunctStep | zhseg.cc:115-125 | a punctuation first character at `i` sets `m[i + len] = (len, m[i].second)` whatever the cell held, keeping the table invariant |
| ZhSeg.SpaceStep | zhseg.cc:99-103 | a space at `i` sets `m[i + 1] = (1, m[i].second)` and the invariant moves to the next start |
| ZhSeg.Advance | zhseg.cc:96-97 | once no candidate of start `i` is left, the invariant moves to start `i + 1` |
| ZhSeg.CandidateScore | zhseg.cc:127-136 | the score of a candidate after a prefix scoring `base`: its dictionary entry plus `base` plus `(len / 3 - 1) * (2 * total)` on a hit, `0.3 + base` on a miss |
| ZhSeg.Score | zhseg.cc:126-136 | the score of the candidate `us[x..k]` over the table, on top of the prefix score `m[x].second` |
| ZhSeg.LookUp | zhseg.cc:127-136 | a dictionary hit scores its entry plus the prefix score plus `(len / 3 - 1) * (2 * total)` with integer division of the byte length; a miss scores `0.3` plus the prefix score |
| ZhSeg.ScoreCandidate | zhseg.cc:127-141 | the candidate score is `freq + m[i].second + bonus`, with `0.3` and no bonus on a miss; the array changes only at the target and only on strict improvement |
| ZhSeg.BonusMonotone | zhseg.cc:132-133 | with a non-negative total the length bonus `(len / 3 - 1) * (total * 2)` never decreases as the candidate gets longer |
| ZhSeg.LongerScoresHigher | zhseg.cc:127-136 | a longer dictionary word whose entry and prefix score are at least those of a shorter one scores at least as high |
| ZhSeg.LongerNotLost | zhseg.cc:127-141 | "favor longer matches": with a non-negative total, in the finished table a shorter dictionary candidate never holds a cell against a longer one ending there whose entry and prefix score are at least its own; lengths 3, 4 and 5 get the same bonus, so there the tie-break for the earlier start decides |
| ZhSeg.ScanningStep | zhseg.cc:109-111 | a byte the inner loop passes without stopping at punctuation is not a space, so the explicit space test never fires |
| ZhSeg.StopStart | zhseg.cc:105-111 | stopping past the first character at the end of the line, at 18 bytes, at a space or at punctuation leaves no scorable candidate of the start behind, and the invariant moves to the next start |
| ZhSeg.ForcePunctuation | zhseg.cc:115-125 | a punctuation first character of `len` bytes sets `m[i + len] = (len, m[i].second)`, changes no other cell, and ends the scan of start `i` |
| ZhSeg.TryCandidate | zhseg.cc:112-141 | the first candidate, when punctuation, is forced and ends the scan; any other candidate is scored, and the invariant moves to the next target |
| ZhSeg.ScanStart | zhseg.cc:104-142 | the inner loop over the candidates of one start, which stops at punctuation after the first character, at a space, or at `min(i + 18, n)`, leaves the table invariant true for the next start |
| ZhSeg.FillTable | zhseg.cc:93-143 | the filled table satisfies `TableSpec` |
| ZhSeg.TableLinked | zhseg.cc:94-138 | every back length is in `0..k`; every reached cell `k` points back over at most 18 bytes to a character boundary, and its token is a single space or holds no space |
| ZhSeg.SpaceForcesBreak | zhseg.cc:99-103 | a space at a start `i` gives `m[i + 1] == (1, m[i].second)` in the final table |
| ZhSeg.PunctuationForcesBreak | zhseg.cc:115-125 | a punctuation character other than the space, of `len` bytes at `i`, gives `m[i + len] == (len, m[i].second)` in the final table |
| ZhSeg.TableSpecUnique | zhseg.cc:93-143 | two tables that both meet the table specification are equal, so the fill is determined by the line, the dictionary and the total |
| ZhSeg.PunctuationIsOwnToken | zhseg.cc:109-125 | in a complete backtracking chain the start and the end of every punctuation character, the space included, are consecutive cuts, so no candidate crosses punctuation or a space |
| ZhSeg.CellStepBound | zhseg.cc:99-141 | across the last character before a boundary the prefix score drops by at most `2 * abs(total)`: a space or punctuation keeps it, and a scored cell is at least its first character alone |
| ZhSeg.CellLowerBound | zhseg.cc:94-141 | with non-negative dictionary scores the prefix score at every boundary `k` is at least `-2 * abs(total) * k` |
| ZhSeg.TableReachesEveryBoundary | zhseg.cc:94-126 | when the scores stay above the sentinel, every boundary `k > 0` has `m[k].first >= 1`, because the first character of each start is always tried |
| ZhSeg.ChainComplete | zhseg.cc:147-156 | when the scores stay above the sentinel, backtracking from any boundary reaches offset 0, so the loop terminates |
| ZhSeg.Cuts | zhseg.cc:147-156 | the offsets the backtracking visits form an increasing chain from 0 to `k`, and each step is the back length stored at its end |
| ZhSeg.ConcatTokens | trunk/zhseg.cc:148-153 | the tokens between consecutive cuts, read back to back, give the line between the first and the last cut |
| ZhSeg.ChainTokens | trunk/zhseg.cc:148-153 | the tokens of a complete chain are each a single space or a non-empty run without a space, and together they give the whole line |
| ZhSeg.Piece | trunk/zhseg.cc:152-154 | what one token leaves in the buffer: its bytes reversed and one separator slot, or, when it starts with a space, its reversed bytes without that space |
| ZhSeg.RevPieces | trunk/zhseg.cc:147-156 | the buffer the loop fills: the pieces of the tokens from the last token to the first |
| ZhSeg.Assemble | trunk/zhseg.cc:157-159 | the failed `assert(c > 0)` on an empty buffer, otherwise the buffer without its last slot, reversed |
| ZhSeg.Render | trunk/zhseg.cc:144-159 | `Stuck` when the chain does not reach 0, otherwise the assembly of the chain's tokens |
| ZhSeg.CopyBackwards | trunk/zhseg.cc:152-153 | copying `us[i..j]` from `j - 1` down to `i` appends its bytes reversed at the cursor, which advances by the token length, and leaves the later slots spaces |
| ZhSeg.CopyToken | trunk/zhseg.cc:151-154 | copying a token backwards and moving the cursor appends its piece to the buffer: its reversed bytes plus one separator, or, after a leading space, its reversed bytes without it; the slots after the cursor stay spaces |
| ZhSeg.WalkStep | trunk/zhseg.cc:147-156 | one step of the backtracking loop keeps the visited cuts a suffix of the whole chain and adds the piece of the token it passes after the pieces already written |
| ZhSeg.FillBuffer | trunk/zhseg.cc:144-156 | the loop succeeds exactly when the chain reaches 0, and the buffer up to the cursor then holds the pieces of the chain's tokens, last token first |
| ZhSeg.ReversePrefix | trunk/zhseg.cc:159 | reverses the first `len` slots in place and leaves the rest alone |
| ZhSeg.Backtrack | trunk/zhseg.cc:144-159 | the result is that of the chain of the table: stuck at a cell with `first == 0`, the failed `assert(c > 0)` on an empty buffer, or the trimmed and reversed buffer |
| ZhSeg.AssembleJoins | trunk/zhseg.cc:154-159 | on well-shaped tokens, trimming the last slot and reversing gives the non-space tokens in chain order joined by single spaces, and the assertion fails exactly when there is none |
| ZhSeg.JoinCovers | trunk/zhseg.cc:144-159 | deleting the spaces from the output gives the tokens with their spaces deleted: no byte is dropped, duplicated or reordered |
| ZhSeg.JoinSeparated | trunk/zhseg.cc:145-158 | non-empty words without spaces, joined by single spaces, give text with no leading, trailing or doubled space |
| ZhSeg.NoWordsIffAllSpaces | trunk/zhseg.cc:147-157 | there is no non-space token exactly when the line consists of spaces only |
| ZhSeg.AssembleMeaning | trunk/zhseg.cc:144-159 | for well-shaped tokens of a line, the output is their words joined by single spaces; the assertion fails exactly on a line of spaces only; otherwise the output is non-empty, holds the line's non-space bytes in order, and has no leading, trailing or doubled space |
| ZhSeg.SpacesReachEveryOffset | zhseg.cc:99-103 | on a line of spaces only, the backtracking from every offset reaches 0 whatever the dictionary and the total |
| ZhSeg.Process | zhseg.cc:82-162 | the table meets its specification; the result is the words of its chain joined by single spaces; it never gets stuck while the scores stay above the sentinel; it aborts on every line of spaces, and, when not stuck, only on such a line; the output holds the input's non-space bytes in order with single separators |
| Utf8.DecodeEncode | zhseg.cc:88 | encoding a scalar value gives one well-formed character that decodes back to it |
| Utf8.EncodeDecode | zhseg.cc:88 | decoding a well-formed character and encoding the result gives back its bytes |
| Utf8.WellFormedChars | zhseg.cc:86-91 | in well-formed input, the first byte starts a character, and every non-continuation byte starts a whole character that ends on a boundary |
| ZhSeg.Find | trunk/zhseg.cc:54-56 | the first offset at or after `from` that holds the byte, or none when no later byte does |
| ZhSeg.ParseEntry | trunk/zhseg.cc:54-62 | no entry when the line has no space; otherwise the count text before the first space and the word from there to the second space or the end of the line |
| ZhSeg.ParseEntryFields | trunk/zhseg.cc:54-64 | a line without a space has no entry; otherwise the line is the count text, a space, the word and a rest that is empty or starts with a space, and neither field holds a space |
| ZhSeg.ParseEntryRoundTrip | trunk/zhseg.cc:54-64 | a line built from a count text, a space, a word and a rest that is empty or starts with a space parses back to that count text and word |
| ZhSeg.Apply | trunk/zhseg.cc:65-71 | the word becomes a key; its score is stored and added to `total` only when its stored score is zero; otherwise nothing changes except a warning when the new score differs; other words are untouched |
| ZhSeg.LoadLine | trunk/zhseg.cc:53-55 | empty and `#` lines leave the state unchanged; a line fails exactly when it is not skipped and has no space |
| ZhSeg.LoadLines | trunk/zhseg.cc:50-72 | the loop over the lines: each line updates the state in turn, and the first line that fails the assertion stops it with its index |
| ZhSeg.FailsAtFirstMalformed | trunk/zhseg.cc:50-55 | the loop fails at the first non-skipped line without a space, and succeeds exactly when there is no such line |
| ZhSeg.LoadOne | trunk/zhseg.cc:53-71 | one line updates the dictionary, the total and the warnings as the line-by-line specification says, and fails exactly when it is not skipped and has no space |
| ZhSeg.LoadDict | trunk/zhseg.cc:45-73 | the loop over the lines yields the dictionary, `log(total)` and the warnings of the line-by-line specification, or the index of the line whose assertion fails |
| ZhSeg.TotalIsStoredMass | trunk/zhseg.cc:64-73 | the total grows by exactly the sum of the scores the lines stored |
| ZhSeg.StoredIsFirstNonZero | trunk/zhseg.cc:65-71 | after the loop a word holds the first non-zero score among its previous score and the scores its lines gave, and it is a key exactly when it was one before or some line named it |

## Left out

- `main` (zhseg.cc:164-183) is not modelled: argument handling, the standard-input line loop, printing empty lines, and flushing.
- Opening the dictionary file, `assert(in)` and `getline` (zhseg.cc:47-52) are left out. `LoadDict` takes the file's lines as a sequence.
- `atof`, `log` and single-precision float rounding are left out. Scores are `real`. The count-to-score function `log(atof(count) + 1)` and the final `log` are function parameters of `LoadDict`.
- `utf8::next` is left out for malformed input. The library is not part of this model, and its behaviour on malformed input is not modelled. `ComputeFlags`, `FillTable` and `Process` require well-formed UTF-8.
- The djb2-style hash specialisation (zhseg.cc:28-38) is left out. It only places keys in buckets, and the dictionary is a Dafny `map`.
- Global optimality of the table is not stated: it is not a maximum over all segmentations. The per-cell rule `TableSpec` is what the code does, and the punctuation override breaks global optimality.
- The `cerr` warning for a word with several counts is modelled as the list of warned words, not as output text.
- ZhSeg.TableReachesEveryBoundary: it holds under `ScoresAboveSentinel`, which requires non-negative dictionary scores and `2 * abs(total) * n < 1999999`. This is a sufficient condition, not the exact one, and float overflow is not modelled.
- ZhSeg.ChainComplete: same sufficient condition as `TableReachesEveryBoundary`.
- `load_dict` fills the caller's `hash_map` through the pointer `dict`; `LoadDict` takes the initial map and returns the final one, so the aliasing of the caller's map is rendered as a returned value.
- ZhSeg.Process: outside that condition (and apart from a line of spaces, which always aborts) it only promises that the result is `Stuck` or one of the other outcomes. `Stuck` stands for the source revisiting a cell with `first == 0` forever, or reading `res[-1]` when `c == 0`; neither is modelled further.
- The `int`/`size_t` widths of the indices are not modelled. Lines longer than 2^31 bytes are out of scope.
