# Verified models of the Unicode library and the command engine

The repository holds MiniViews, a program that shows small live views of other windows. What it relies on
is a Unicode library (`source/IcuLib`) and an engine for commands that can be undone
(`source/CrossCutLib`). This project models six parts of them in Dafny and proves what each of them is for.

* **Edits** record which parts of a text were replaced, as runs in an array of 16-bit units. `EditSpans`
  says what an edit script means, `EditRecords` how it is encoded; `EditsRecorder`, `EditsIterator` and
  `EditsMerge` model the recorder, its bidirectional iterator with the two index mappings, and the
  composition of two scripts. `EditsRoundTrip` puts them together.
* **BMPSet** answers membership in a set of code points from three bit tables. `InversionList` is the
  plain meaning, `CodePoints` the plain decoding of UTF-16 and UTF-8, `Bits` the reasoning about words,
  and `BmpTables` the tables with all that is read from them.
* **Dictionary breaks**: `CjkBreakEngine` is the shortest path through a Chinese or Japanese text,
  `WordBreakEngine` the lookahead for Thai, Lao, Burmese and Khmer, which differ in their sets of
  characters only, apart from the suffixes of Thai. `DictionaryBreaks` is the vector that they fill.
* **BytesTrie**: `BytesTrieFormat` says which bytes lay out which tree and what strings the tree holds,
  `BytesTrieReader` is the cursor, `BytesTrieIterator` the iterator with its explicit stack,
  `BytesTrieWriter` the buffer that is filled from its end, and `StringTrieElements` and
  `StringTrieBuilder` build a trie from sorted strings. `BytesTrieRoundTrip` shows that a trie gives
  back what it was built from.
* **Filtered breaks and canonical permutations**: `AbbreviationBuilder` divides abbreviations between
  two tries, `FilteredBreaks` skips the breaks after them, `Permutations` and `CanonicalIterator`
  enumerate canonically equivalent strings.
* **Commander**: `Commands` and `CommandHistory` are the commands and the undo and redo stacks,
  `CommandQueue` the system of clients, queue and worker as a system of steps.

`dafny verify dfyconfig.toml` checks all of it.

## What the code does not do

Where the code falls short of what it seems to be meant for, the model follows the code, a concrete
input shows the failure, and a lemma says exactly when the code does what it is meant to.

* Breaks in Chinese and Japanese text can repeat the start of the range (`BreaksAscend`, `GuardIsExact`,
  `BreaksCanRepeat`).
* A Katakana run after a supplementary character is entered with a wrong end
  (`KatakanaHopEndsWithRun`, `KatakanaHopOvershoots`).
* The lookahead for words can take the shortest word that is followed by one word, not the longest,
  because its counter of matched words starts anew for each candidate (`LongestFollowedIsTaken`,
  `ShorterFollowedIsTaken`). "Never stop before a combining mark" does not hold in Thai after a suffix
  (`MarksAreKept`, `MarkIsCutOff`). Thai text of four characters is not divided, though two words of the
  least length would fit (`BreakEngine.DivideUpDictionaryRange`, `FourCharactersOfThai`).
* A string of bytes is looked up with signed bytes, single bytes with unsigned ones (`StringOrBytes`,
  `NegativeByteIsLost`), though the header calls them equivalent.
* The iterator over a trie loses strings after 2^16 bytes (`Enumerate`, `LongDiffers`, `LongStringIsLost`).
* Jumps above 0xdffff are written with an overwritten byte and bytes that are not set
  (`LongDeltaArrives`, `FirstLongDeltaFails`).
* The end of a text can be visited and yet not count as a boundary (`IsBoundaryAgrees`,
  `EndIsSuppressed`).
* A composite command is undone in the order in which it was done (`CompositeUndo`,
  `CompositeUndoCanFail`).
* All undos share one command that holds the undo id, and all redos another one, so that the last one asked
  for counts (`UndoUsesLastAsked`, `RedoUsesLastAsked`, `TwoClientsUndo`).

## Model

| member | source | states |
|---|---|---|
| EditsRoundTrip.RoundTrip | source/IcuLib/edits.cpp:111-540 | Recording any sequence of unchanged and replaced lengths and reading it back delivers, unless there was an error, exactly these spans in order, neighbouring unchanged ones joined and empty ones left out; the coarse iterator delivers the maximal merges of neighbouring changes. There is an error if the difference of the lengths leaves 32 bits on the way, and only then as long as the array cannot get full. |
| EditsRoundTrip.Record | source/IcuLib/edits.cpp:111-242 | The recorded script, its delta (sum of new minus old lengths) and its number of changes, and for which scripts recording is free of errors: if and only if no delta on the way leaves 32 bits, for scripts that cannot fill the largest array. |
| EditsRoundTrip.ReadForward | source/IcuLib/edits.cpp:446-540 | Calls of next() visit all spans of the encoded records, fine or coarse, once and in order. |
| EditsRoundTrip.ReadBackward | source/IcuLib/edits.cpp:542-649 | After that, calls of previous() visit the same spans in reverse order. |
| EditsRoundTrip.Rebuild | source/IcuLib/edits.cpp:422-540 | A client that copies unchanged text from the source index of each span, and replacements from its replacement index, gets the new text, as long as the destination index says at each span. |
| EditsRecorder.Edits.AddUnchanged | source/IcuLib/edits.cpp:111-137 | The array afterwards encodes the old script with the length joined to its end; a negative length is an error that leaves the records alone; other errors only with a full array. |
| EditsRecorder.Edits.AddReplace | source/IcuLib/edits.cpp:139-205 | The array afterwards encodes the old script with the replacement at its end, whether it was compressed into the last unit, written as a short record, or with one or two trail units per length; an error exactly for negative lengths, an overflow of the delta, or a full array. |
| EditsRecorder.Edits.Append | source/IcuLib/edits.cpp:207-211 | One more unit at the end, the others kept, also when the array is replaced by a larger one. |
| EditsRecorder.Edits.GrowArray | source/IcuLib/edits.cpp:213-242 | A larger array with the same contents, or an error when there can be none. |
| EditsRecorder.Edits.Reset | source/IcuLib/edits.cpp:106-109 | The empty script, without an error. |
| EditsIterator.Iterator.Next | source/IcuLib/edits.cpp:446-540 | From any state reached by calls in both directions: the next span (or change), with its lengths and the source, replacement and destination indexes that are the sums over all spans before it; after a change of direction the same span again. |
| EditsIterator.Iterator.Previous | source/IcuLib/edits.cpp:542-649 | The same towards the start of the script. |
| EditsIterator.ChangeFromMeaning | source/IcuLib/edits.cpp:446-540 | If only changes are wanted, the next span is the first change that is not yet passed. |
| EditsIterator.Iterator.ReadLength | source/IcuLib/edits.cpp:403-420 | Decodes a length from its head and up to two trail units. |
| EditsIterator.Iterator.FindIndex | source/IcuLib/edits.cpp:651-736 | The span that contains the index becomes the current one, wherever the iterator stood: found forward, backward, inside of a compressed run, or after a reset. |
| EditsIterator.Iterator.DestinationIndexFromSourceIndex | source/IcuLib/edits.cpp:738-755 | The result is a function of the recorded spans and the index alone. |
| EditsIterator.Iterator.SourceIndexFromDestinationIndex | source/IcuLib/edits.cpp:757-774 | The same for the other direction. |
| EditSpans.MappingsMonotone | source/IcuLib/edits.cpp:738-774 | Both index mappings are monotone. |
| EditSpans.DestMeaning | source/IcuLib/edits.cpp:738-755 | For every script: the start of a span is mapped to its start, the inside of a replacement to its end, the inside of unchanged text one to one. |
| EditSpans.SourceMeaning | source/IcuLib/edits.cpp:757-774 | The same for the other direction. |
| EditSpans.MappingsOutside | source/IcuLib/edits.cpp:738-774 | Before the text the mappings give 0, and from its end on the end of the other text. |
| EditSpans.UnchangedMeaning | source/IcuLib/edits.cpp:251-395 | A unit is kept exactly if it lies in an unchanged span, at the place that corresponds to it. |
| EditSpans.UnchangedRoundTrip | source/IcuLib/edits.cpp:738-774 | On an unchanged unit the mappings are inverse to each other, and agree with where the unit is kept. |
| EditSpans.CoarsenMeaning | source/IcuLib/edits.cpp:446-540 | Merging neighbouring changes keeps lengths and unchanged units. |
| EditRecords.CoarseIsCoarsened | source/IcuLib/edits.cpp:503-540 | Reading the records coarsely gives the merges of what reading them finely gives. |
| EditRecords.UnitsOfRecord | source/IcuLib/edits.cpp:139-205 | Where each record lies in the array of units, and what its units are. |
| EditsMerge.MergeAndAppend | source/IcuLib/edits.cpp:251-395 | Ends for all scripts; the only error apart from recording errors is the one for different intermediate lengths, and it occurs exactly then; otherwise the appended edits lead from a to c and a unit of a is unchanged in them exactly if it is unchanged in both scripts, at the composed offset. |
| EditsMerge.MergeRounds | source/IcuLib/edits.cpp:263-389 | The main loop: at its end both scripts are used up, or one of them too early. |
| EditsMerge.FetchFromBC | source/IcuLib/edits.cpp:276-292 | Fetching from the second script keeps the invariant; an insertion is appended, or accumulated inside of a change. |
| EditsMerge.FetchFromAB | source/IcuLib/edits.cpp:293-306 | Fetching from the first script keeps the invariant; a deletion is appended, or accumulated inside of a change. |
| EditsMerge.Consume | source/IcuLib/edits.cpp:334-388 | One step over what was fetched, in each combination of changed and unchanged spans, keeps the invariant and uses up one of the two. |
| EditsMerge.Flush | source/IcuLib/edits.cpp:390-392 | What was accumulated is appended, and the composition is complete. |
| EditsMerge.KeepStep | source/IcuLib/edits.cpp:334-346 | Spans that are unchanged on both sides compose to an unchanged span. |
| EditsMerge.SplitABStep | source/IcuLib/edits.cpp:347-357 | A change of the second script inside of an unchanged span of the first replaces just those units. |
| EditsMerge.SplitBCStep | source/IcuLib/edits.cpp:358-368 | A change of the first script inside of an unchanged span of the second replaces just those units. |
| EditsMerge.MeetStep | source/IcuLib/edits.cpp:369-377 | Changes of both scripts that end at the same place compose to one change. |
| EditsMerge.AccumulateStep | source/IcuLib/edits.cpp:378-388 | Changes that overlap accumulate to a larger change, whose units are all replaced. |
| EditsMerge.ComposedEverywhere | source/IcuLib/edits.cpp:251-395 | The composition of two scripts at every index, beyond the ends as well. |
| EditsRoundTrip.Merge | source/IcuLib/edits.cpp:251-395 | For new edits: the whole meaning of the merged script, as the composition of the two, index by index. |
| EditsRoundTrip.MergedScript | source/IcuLib/edits.cpp:251-395 | Recording the composed spans one by one, joined where they are neighbours, keeps their meaning. |
| BmpTables.BMPSet.constructor | source/IcuLib/bmpset.cpp:29-52 | For every valid inversion list all tables agree with membership: a byte per Latin-1 character, a bit per code point below U+0800, and 0, 1 or mixed per block of 64 code points; start indexes bound the binary searches. |
| BmpTables.BMPSet.FindCodePoint | source/IcuLib/bmpset.cpp:257-289 | The smallest index whose list element is above the code point, within the given bounds. |
| BmpTables.BMPSet.ContainsSlow | source/IcuLib/bmpset.h:158-160 | Membership, by the parity of that index. |
| BmpTables.Set32x64Bits | source/IcuLib/bmpset.cpp:70-119 | Sets exactly the bits from start up to limit in a table of 64 words, vertically. |
| BmpTables.BMPSet.InitLatin1 | source/IcuLib/bmpset.cpp:125-139 | The byte table equals membership for all of Latin-1. |
| BmpTables.BMPSet.InitTable7FF | source/IcuLib/bmpset.cpp:141-172 | The bit table equals membership from U+0080 up to U+07FF. |
| BmpTables.BMPSet.InitBlockBits | source/IcuLib/bmpset.cpp:174-218 | Each block from U+0800 on is marked as all in, all out, or mixed, as it is. |
| BmpTables.BMPSet.EnterRange | source/IcuLib/bmpset.cpp:176-206 | One range is entered: its mixed first and last blocks and the full blocks between them. |
| BmpTables.BMPSet.InitBits | source/IcuLib/bmpset.cpp:121-219 | All three tables, from the list. |
| BmpTables.BMPSet.OverrideIllegal | source/IcuLib/bmpset.cpp:229-255 | The entries that only illegal UTF-8 reads answer for U+FFFD, the others are as before. |
| BmpTables.BMPSet.Contains | source/IcuLib/bmpset.cpp:292-316 | Membership in the list for every code point, and no for anything else. |
| BmpTables.BMPSet.Span | source/IcuLib/bmpset.cpp:323-408 | The same limit as a scan that decodes UTF-16, unpaired surrogates as themselves, and tests membership in the list. |
| BmpTables.BMPSet.SpanBack | source/IcuLib/bmpset.cpp:412-503 | The same start as the longest suffix of code points that all have the condition. |
| BmpTables.BMPSet.SpanUTF8 | source/IcuLib/bmpset.cpp:510-665 | For every non-empty byte string, well-formed or not: the same limit as a naive scan that decodes UTF-8 (section 4 of RFC 3629), takes each byte of an illegal or truncated sequence as U+FFFD, and tests membership in the list. |
| BmpTables.BMPSet.TrimTail | source/IcuLib/bmpset.cpp:537-573 | After the tail is trimmed, no sequence runs past the limit, and the remembered limit is where the naive scan ends that gets that far. |
| BmpTables.BMPSet.StepUTF8 | source/IcuLib/bmpset.cpp:601-661 | One step over a sequence of 2 to 4 bytes, or over one byte of an illegal one, agrees with the naive scan. |
| BmpTables.BMPSet.ThreeStep | source/IcuLib/bmpset.cpp:602-625 | A three-byte sequence that is overlong or a surrogate counts as three illegal bytes, and the overridden table says so. |
| InversionList.MemberOfRange | source/IcuLib/bmpset.h:158-160 | Parity means: the code point lies in one of the ranges of the list. |
| InversionList.MemberAround | source/IcuLib/bmpset.cpp:121-219 | Membership in a range, and in the gap after it. |
| Bits.RectangleBits | source/IcuLib/bmpset.cpp:70-119 | The bits of a mask of columns. |
| CodePoints.SpanOverIllegal | source/IcuLib/bmpset.cpp:656-661 | A run of bytes that start no sequence is passed over as a whole, or stops the span. |
| CodePoints.SuffixFromEarlier | source/IcuLib/bmpset.cpp:412-503 | What lies before the code point that stops a backward span does not matter. |
| CodePoints.EncodedIsRead8 | source/IcuLib/bmpset.cpp:601-661 | Each scalar value, encoded by division and remainder (section 3 of RFC 3629), is read back from wherever its bytes are. |
| CodePoints.WellFormedIsEncoded8 | source/IcuLib/bmpset.cpp:601-661 | Every well-formed sequence is the encoding of a scalar value. |
| CodePoints.SpanStep8 | source/IcuLib/bmpset.cpp:581-665 | In any bytes, the span goes on or stops by the membership of the scalar value that is encoded there, or else of U+FFFD for the one byte. |
| CodePoints.SpanOfEncoded8 | source/IcuLib/bmpset.cpp:510-665 | The span of encoded code points is as long as those before the first one of other membership. |
| CodePoints.EncodedIsRead16 | source/IcuLib/bmpset.cpp:353-364 | Each scalar value, encoded in one or two units (section 2.1 of RFC 2781), is read back. |
| CodePoints.ReadIsEncoded16 | source/IcuLib/bmpset.cpp:353-364 | What is read is what is encoded there, unless it is a single surrogate, which stands for itself. |
| CodePoints.SpanOfEncoded16 | source/IcuLib/bmpset.cpp:323-408 | The span of encoded code points is as long as those before the first one of other membership. |
| CodePoints.SuffixOfEncoded16 | source/IcuLib/bmpset.cpp:412-503 | The span at the end starts after the last code point of other membership. |
| CjkBreakEngine.BestIsMinimum | source/IcuLib/dictbe.cpp:1245-1335 | After the dynamic programming, the entry of every position is the least cost of all segmentations up to it, and 2^32 - 1 exactly if there is none. |
| CjkBreakEngine.Solve | source/IcuLib/dictbe.cpp:1245-1335 | The tables of least costs and of predecessors are filled; sums do not wrap around as long as no segmentation costs 2^32 - 1. |
| CjkBreakEngine.CheapTextFits | source/IcuLib/dictbe.cpp:1096-1102 | No segmentation costs that much if a cost for each character, of 984 at least, does not add up to it: the Katakana costs never exceed 984 for a character. |
| CjkBreakEngine.TryWords | source/IcuLib/dictbe.cpp:1282-1307 | All dictionary words at a position, or the single character at cost 255 if it is no word and not Hangul, are tried. |
| CjkBreakEngine.TryKatakana | source/IcuLib/dictbe.cpp:1309-1333 | A whole run of Katakana is tried as a word, unless the position before is Katakana or the run has 20 characters or more. |
| CjkBreakEngine.CandidatesMeaning | source/IcuLib/dictbe.cpp:1282-1298 | Which words are tried: those of the dictionary, and the single character at 255 if it is not Hangul and no word has length 1. |
| CjkBreakEngine.HopsMeaning | source/IcuLib/dictbe.cpp:1309-1333 | And a whole run of 1 to 19 Katakana, unless the last position before it that was reached is Katakana. |
| CjkBreakEngine.KatakanaRunStaysTogether | source/IcuLib/dictbe.cpp:1096-1102 | What the Katakana costs lead to: an unknown run of up to 19 characters is one word exactly if it has 2 to 8, and is divided between all characters otherwise. |
| CjkBreakEngine.Relax | source/IcuLib/dictbe.cpp:1300-1307 | Trying one word keeps the invariant of the table. |
| CjkBreakEngine.MovesOn | source/IcuLib/dictbe.cpp:1277-1280 | Going on to the next position, or skipping one that cannot be reached, keeps the invariant. |
| CjkBreakEngine.Optimal | source/IcuLib/dictbe.cpp:1245-1335 | No segmentation is cheaper than the entry of its end. |
| CjkBreakEngine.ReachedMeansReachable | source/IcuLib/dictbe.cpp:1277-1280 | The search goes on from exactly those positions at which some segmentation ends. |
| CjkBreakEngine.NoHangulReached | source/IcuLib/dictbe.cpp:1289-1298 | Text without Hangul can be segmented up to every position. |
| CjkBreakEngine.Backtrack | source/IcuLib/dictbe.cpp:1337-1354 | Following the predecessors from the end gives the ends of the words of a segmentation of least cost, for text without supplementary characters before Katakana; without a segmentation the whole text is one piece; in any case the boundaries descend from the end. |
| CjkBreakEngine.Text.KatakanaHopEndsWithRun | source/IcuLib/dictbe.cpp:1315-1332 | The edge for a Katakana run ends where the run ends if and only if no supplementary character comes before it: its end is an index of code units. |
| CjkBreakEngine.KatakanaHopOvershoots | source/IcuLib/dictbe.cpp:1315-1332 | A text in which it does not. |
| CjkBreakEngine.PushBreaks | source/IcuLib/dictbe.cpp:1356-1390 | The native indexes of the boundaries are added once each, strictly ascending, with the start of the range if it was missing; the returned number is the number added. |
| CjkBreakEngine.BreaksAscend | source/IcuLib/dictbe.cpp:1356-1385 | If the breaks so far ascend up to the start of the range, then all breaks together ascend if and only if none of them is at the start of the range, or the first word goes beyond what the first character was normalised to. |
| CjkBreakEngine.GuardIsExact | source/IcuLib/dictbe.cpp:1356-1385 | What can be seen before the division: whatever the words of the text are, the order is kept if and only if no break is at the start of the range or the second code point does not come from the first character. |
| CjkBreakEngine.BreaksCanRepeat | source/IcuLib/dictbe.cpp:1113-1391 | A Korean range and a Japanese one that starts with U+309F, divided one after the other: the break between them is added twice. |
| CjkBreakEngine.DivideUpDictionaryRange | source/IcuLib/dictbe.cpp:1113-1391 | The whole division of any text: the boundaries are those of a segmentation of least cost if there is one (and no supplementary character before Katakana), or else the end of the text alone; their native indexes are added to the breaks once each; all breaks stay in order exactly if the first one is new. |
| WordBreakEngine.BreakEngine.DivideUpDictionaryRange | source/IcuLib/dictbe.cpp:226-415 | Ends for all texts and dictionaries; each break is where the word after the previous break ends; the breaks that are left ascend strictly within the range, and as many are counted as are left; of the ranges of four characters and more, only those of four characters of Thai are left undivided. |
| WordBreakEngine.BreakEngine.NextWord | source/IcuLib/dictbe.cpp:247-406 | Each pass moves the text on by the length of a word that is not zero, and depends on the text and the dictionary alone, not on the candidates that were kept. |
| WordBreakEngine.BreakEngine.PickWord | source/IcuLib/dictbe.cpp:251-297 | The word that is taken is the one that the lookahead prefers. |
| WordBreakEngine.MarkBest | source/IcuLib/dictbe.cpp:261-296 | Of several candidates: the longest if it ends the range, else the longest that is followed by two words or by one to the end of the range, else the shortest that is followed by a word, else the longest. |
| WordBreakEngine.WordTaken | source/IcuLib/dictbe.cpp:251-297 | The longest word is taken if it ends the range or if none is followed by another; the shortest followed one, if none is followed by two or by one to the end of the range. |
| WordBreakEngine.NotShorterThanWellFollowed | source/IcuLib/dictbe.cpp:274-288 | No word is taken that is shorter than one that is followed by two, or by one to the end of the range. |
| WordBreakEngine.FollowedByThird | source/IcuLib/dictbe.cpp:280-288 | Whether some second word is followed by a third one. |
| WordBreakEngine.LongestFollowedIsTaken | source/IcuLib/dictbe.cpp:260-296 | The longest candidate that is followed by a word is taken if and only if it is followed by two, or by one up to the end of the range, or is the only one that is followed. |
| WordBreakEngine.ShorterFollowedIsTaken | source/IcuLib/dictbe.cpp:266-273 | Of two candidates that are followed by one word only, the shorter one is taken. |
| WordBreakEngine.PossibleWord.Candidates | source/IcuLib/dictbe.cpp:134-151 | What is kept of the candidates at a position is what the dictionary finds there, also when it is looked at again. |
| WordBreakEngine.PossibleWord.AcceptMarked | source/IcuLib/dictbe.cpp:153-157 | The text is moved behind the marked candidate. |
| WordBreakEngine.PossibleWord.BackUp | source/IcuLib/dictbe.cpp:160-166 | The next shorter candidate, if there is one. |
| WordBreakEngine.BreakEngine.Resynchronize | source/IcuLib/dictbe.cpp:313-347 | Text that is no word is passed over to the first plausible boundary, or to the end of the range. |
| WordBreakEngine.TextWithoutWordEnds | source/IcuLib/dictbe.cpp:305-353 | Text where no word starts ends at the first position that is after a character which can end words, at one which can begin words, and where the dictionary has a word; or else at the end of the range. |
| WordBreakEngine.ShortWordEnds | source/IcuLib/dictbe.cpp:305-353 | A word of one or two characters ends there too, if no word follows it, nor three characters of one. |
| WordBreakEngine.WordEnds | source/IcuLib/dictbe.cpp:305-400 | Any other word ends after its combining marks, and in Thai after PAIYANNOI, MAIYAMOK or both, unless a word follows or a suffix is before them. |
| WordBreakEngine.TextBeforeWord | source/IcuLib/dictbe.cpp:226-415 | A text of a word after one character that is none: the break is between them. |
| WordBreakEngine.BreakEngine.JoinRest | source/IcuLib/dictbe.cpp:305-353 | It is joined to a word before it only if that is short and little of it is the beginning of a word. |
| WordBreakEngine.BreakEngine.SkipMarks | source/IcuLib/dictbe.cpp:355-360 | Combining marks are joined to what is before them. |
| WordBreakEngine.BreakEngine.TakeSuffixes | source/IcuLib/dictbe.cpp:362-400 | In Thai, a suffix is joined to the word before it, unless a suffix is before it already. |
| WordBreakEngine.MarksAreKept | source/IcuLib/dictbe.cpp:355-400 | Some dictionary makes the engine break a text before a combining mark if and only if the text is Thai and in it suffixes that belong to the word before them are followed by a combining mark. |
| WordBreakEngine.MarkIsCutOff | source/IcuLib/dictbe.cpp:355-400 | A text and a dictionary for which this happens. |
| WordBreakEngine.DivisionKeepsMarks | source/IcuLib/dictbe.cpp:355-400 | No break within the range comes before a combining mark, except in Thai right after a suffix. |
| WordBreakEngine.FourCharactersOfThai | source/IcuLib/dictbe.cpp:226-236 | Four characters of Thai that are two words of the dictionary, and are left undivided. |
| WordBreakEngine.DivisionUnique | source/IcuLib/dictbe.cpp:226-415 | The breaks are determined by the text and the dictionary. |
| WordBreakEngine.WordUnique | source/IcuLib/dictbe.cpp:247-406 | So is where the word at a position ends. |
| WordBreakEngine.WordProgress | source/IcuLib/dictbe.cpp:247-406 | A word is never empty. |
| BytesTrieReader.ResultMeaning | source/IcuLib/bytestrie.cpp:182-206 | After the bytes of a string, the result is a value exactly if the string is in the trie, and no match exactly if no string of the trie begins with it. |
| BytesTrieReader.BytesTrie.Next | source/IcuLib/bytestrie.cpp:182-206 | One byte moves the cursor to the strings that go on with it, and the result says what is there. |
| BytesTrieReader.BytesTrie.NextImpl | source/IcuLib/bytestrie.cpp:150-180 | The same at the start of a node, past values. |
| BytesTrieReader.BytesTrie.BranchNext | source/IcuLib/bytestrie.cpp:80-148 | The edge for the byte is found by halving the branch and then by searching a list of up to five edges. |
| BytesTrieReader.BytesTrie.Current | source/IcuLib/bytestrie.cpp:68-78 | The result for the string so far. |
| BytesTrieReader.BytesTrie.GetValue | source/IcuLib/unicode/bytestrie.h:208-213 | The value for the string so far. |
| BytesTrieReader.BytesTrie.NextString | source/IcuLib/bytestrie.cpp:208-313 | A string at once, of a given length or up to a zero byte, leaves the cursor where its bytes one by one would, each taken as it is, without making it unsigned. |
| BytesTrieReader.StringOrBytes | source/IcuLib/bytestrie.cpp:188-252 | A string at once and its bytes one by one agree if and only if none of them is negative, or nothing matches anyway. |
| BytesTrieReader.NegativeByteIsLost | source/IcuLib/bytestrie.cpp:188-252 | A trie and a byte for which they do not. |
| BytesTrieReader.BytesTrie.GetNextBytes | source/IcuLib/bytestrie.cpp:387-418 | The bytes that are appended, and that their number is returned. |
| BytesTrieReader.NextBytesMeaning | source/IcuLib/bytestrie.cpp:387-433 | These are the bytes that match next, each once, in ascending order. |
| BytesTrieFormat.WalkArrives | source/IcuLib/bytestrie.cpp:182-206 | Walking along a string arrives somewhere exactly if a string of the trie begins with it. |
| BytesTrieFormat.WalkFindsValue | source/IcuLib/bytestrie.cpp:182-206 | It finds a value exactly if the string is in the trie with that value. |
| BytesTrieFormat.EntriesAscend | source/IcuLib/bytestrieiterator.cpp:101-212 | The strings of a trie with ordered branches are in strictly ascending order of unsigned bytes, prefixes first. |
| BytesTrieFormat.SkipIsTail | source/IcuLib/unicode/bytestrie.h:367-383 | A value is skipped by as many bytes as are read. |
| BytesTrieFormat.ValueIsNumber | source/IcuLib/bytestrie.cpp:31-47 | The five forms of a value: the bytes after the lead byte are digits, the first counting most, with the lead byte in the shorter forms. |
| BytesTrieFormat.DeltaIsNumber | source/IcuLib/bytestrie.cpp:49-66 | The same for the five forms of a jump, which counts from after its last byte; skipping passes as many bytes. |
| BytesTrieIterator.Iterator.constructor | source/IcuLib/bytestrieiterator.cpp:43-77 | From any cursor of a trie, also within a linear match, and with or without a maximal length of the strings: all that is to be delivered. |
| BytesTrieIterator.Iterator.Next | source/IcuLib/bytestrieiterator.cpp:101-169 | Delivers the first of the strings still to be delivered with its value, or without one where it is cut off at the maximal length, and leaves the others. |
| BytesTrieIterator.Iterator.BranchNext | source/IcuLib/bytestrieiterator.cpp:183-212 | The first edge of a branch is followed, all others are left on the stack, in order. |
| BytesTrieIterator.Iterator.HasNext | source/IcuLib/bytestrieiterator.cpp:98-99 | There is more exactly if something is still to be delivered. |
| BytesTrieIterator.Enumerate | source/IcuLib/bytestrieiterator.cpp:101-212 | Repeated calls deliver every string with its value exactly once, in ascending order, and then stop, if no branch with more than one edge to follow comes after 2^16 bytes or more; without a maximal length they do if and only if that is so. |
| BytesTrieIterator.Limited | source/IcuLib/bytestrieiterator.cpp:101-181 | With a maximal length, the strings up to this length are delivered with their values, and each string of this length that goes on, once and without a value. |
| BytesTrieIterator.ShortDelivers | source/IcuLib/bytestrieiterator.cpp:101-212 | No such branch: what is delivered is right. |
| BytesTrieIterator.LongDiffers | source/IcuLib/bytestrieiterator.cpp:110-118 | Such a branch: some string is delivered that should not be there, as the upper bits of a length are lost on the stack. |
| BytesTrieIterator.RightExactly | source/IcuLib/bytestrieiterator.cpp:101-212 | Without a maximal length, all branch lengths are read back and all strings are right if and only if there is no such branch. |
| BytesTrieIterator.DisturbedIsLong | source/IcuLib/bytestrieiterator.cpp:110-118 | A branch length that is disturbed on the stack belongs to such a branch. |
| BytesTrieIterator.LimitedIsShort | source/IcuLib/bytestrieiterator.cpp:101-212 | A maximal length of 2^16 or less excludes such branches. |
| BytesTrieIterator.Unpack | source/IcuLib/bytestrieiterator.cpp:110-118 | Of the two lengths in one integer of the stack, that of the string is read back exactly if it is below 2^16. |
| BytesTrieRoundTrip.LongStringIsLost | source/IcuLib/bytestrieiterator.cpp:101-212 | A trie of two strings of 2^16 + 1 bytes, of which the second is delivered as its last byte. |
| BytesTrieWriter.Buffer.EnsureCapacity | source/IcuLib/bytestriebuilder.cpp:374-399 | A larger buffer with the same bytes at its end. |
| BytesTrieWriter.Buffer.WriteByte | source/IcuLib/bytestriebuilder.cpp:401-409 | One byte in front of all that was written; the result is the distance from the end. |
| BytesTrieWriter.Buffer.Write | source/IcuLib/bytestriebuilder.cpp:411-419 | Bytes in front of all that was written. |
| BytesTrieWriter.Buffer.WriteValueAndFinal | source/IcuLib/bytestriebuilder.cpp:426-459 | Every 32-bit value is read back from what was written, with its final mark, and ends where the older bytes begin. |
| BytesTrieWriter.ValueRoundTrip | source/IcuLib/bytestriebuilder.cpp:426-459 | The same for each of the five forms of a value. |
| BytesTrieWriter.Buffer.WriteDeltaTo | source/IcuLib/bytestriebuilder.cpp:470-501 | A jump of up to 0xdffff arrives at its target; what is written for longer jumps. |
| BytesTrieWriter.LongDeltaArrives | source/IcuLib/bytestriebuilder.cpp:485-497 | A longer jump arrives if and only if certain digits of the delta coincide and the bytes that are not set happen to be right. |
| BytesTrieWriter.FirstLongDeltaFails | source/IcuLib/bytestriebuilder.cpp:485-497 | The first longer delta never arrives. |
| BytesTrieWriter.LayoutMoves | source/IcuLib/bytestriebuilder.cpp:411-419 | A trie stays laid out when more is written in front of it. |
| StringTrieBuilder.Build | source/IcuLib/bytestriebuilder.cpp:218-270 | An error for no elements and for equal strings; otherwise the bytes lay out a trie with exactly the elements, if no jump of a split, which passes over the greater edges with all that they lead to, is longer than 0xdffff. |
| StringTrieBuilder.Builder.WriteNode | source/IcuLib/stringtriebuilder.cpp:86-130 | A range of sorted strings with a common prefix becomes a node that holds exactly what follows the prefix. |
| StringTrieBuilder.Builder.WriteBranchSubNode | source/IcuLib/stringtriebuilder.cpp:134-202 | The edges for all bytes that can come next, as a list or split in halves, hold exactly the strings of the range. |
| StringTrieBuilder.Builder.WriteBranchList | source/IcuLib/stringtriebuilder.cpp:151-194 | A list of up to five edges, written from its last edge to its first. |
| StringTrieBuilder.Builder.FindUnits | source/IcuLib/stringtriebuilder.cpp:151-163 | Where the strings of each byte start, and which bytes end a single string. |
| StringTrieBuilder.Builder.WriteTargets | source/IcuLib/stringtriebuilder.cpp:165-175 | The nodes that the edges lead to, each remembered by its distance from the end. |
| StringTrieBuilder.Builder.WritePair | source/IcuLib/stringtriebuilder.cpp:181-194 | One edge: a byte with a final value, or with the way to its node. |
| StringTrieBuilder.Builder.WriteLinear | source/IcuLib/stringtriebuilder.cpp:102-116 | The bytes that all strings of the range have in common, in nodes of at most 16 bytes. |
| StringTrieBuilder.Builder.WriteBranch | source/IcuLib/stringtriebuilder.cpp:117-128 | A branch with its number of edges, in one byte or two. |
| StringTrieBuilder.Builder.WriteValueAndType | source/IcuLib/bytestriebuilder.cpp:461-468 | The lead byte of a node with the value in front of it. |
| StringTrieElements.GetLimitOfLinearMatch | source/IcuLib/bytestriebuilder.cpp:295-304 | Where the first and the last string of a range part, so do all between them. |
| StringTrieElements.CountElementUnits | source/IcuLib/bytestriebuilder.cpp:306-318 | The number of different bytes. |
| StringTrieElements.SkipElementsBySomeUnits | source/IcuLib/bytestriebuilder.cpp:320-329 | The element after so many different bytes, without running past the range. |
| StringTrieElements.IndexOfElementWithNextUnit | source/IcuLib/bytestriebuilder.cpp:331-338 | The next element with a different byte, without running past the range. |
| StringTrieElements.CommonPrefix | source/IcuLib/stringtriebuilder.cpp:83-85 | What the first and the last of sorted strings have in common is common to all between them. |
| StringTrieElements.SplitLevelsFit | source/IcuLib/stringtriebuilder.cpp:136-150 | A branch is split at most 14 times, so that the tables of split levels are long enough. |
| StringTrieBuilder.SmallIsShort | source/IcuLib/stringtriebuilder.cpp:132-205 | No such jump is too long in a trie of at most 0xdffff bytes. |
| BytesTrieRoundTrip.BuildToRead | source/IcuLib/bytestriebuilder.cpp:218-270 | A trie is built for all different strings, and can be read if no jump of a split is too long. |
| BytesTrieRoundTrip.IterateBuilt | source/IcuLib/bytestrieiterator.cpp:101-212 | Iteration over a trie that was built delivers exactly the elements it was built from. |
| BytesTrieRoundTrip.LookUpBuilt | source/IcuLib/bytestrie.cpp:162-203 | In a trie that was built, a string is found with its value exactly if it is one of the elements. |
| BytesTrieRoundTrip.BuildThenIterate | source/IcuLib/bytestriebuilder.cpp:218-270 | Both together, for a trie of at most 0xdffff bytes. |
| BytesTrieRoundTrip.BuildThenLookUp | source/IcuLib/bytestriebuilder.cpp:218-270 | Building and looking up, for a trie of at most 0xdffff bytes. |
| AbbreviationBuilder.Build | source/IcuLib/filteredbrk.cpp:560-658 | Each group of strings with the same prefix through the first full stop, one of which goes on after it, gives its reversed prefix once as partial and all its strings to the forward trie; every other string goes reversed into the backward trie; no key comes twice. |
| AbbreviationBuilder.BuildExample | source/IcuLib/filteredbrk.cpp:585-657 | The keys for "Mr.", "Ph." and "Ph.D.". |
| AbbreviationBuilder.MarkGroup | source/IcuLib/filteredbrk.cpp:609-622 | The other strings of a group are marked, and whether the group is new can be told afterwards. |
| AbbreviationBuilder.WholeGroups | source/IcuLib/filteredbrk.cpp:609-622 | A group was met either as a whole or not at all. |
| AbbreviationBuilder.NewGroup | source/IcuLib/filteredbrk.cpp:626-633 | The prefix of a new group is a new key. |
| AbbreviationBuilder.OldGroup | source/IcuLib/filteredbrk.cpp:634-637 | A later string of a group adds nothing. |
| AbbreviationBuilder.AddBackward | source/IcuLib/filteredbrk.cpp:640-645 | A string outside of all groups is a new key, neither a prefix nor another string. |
| FilteredBreaks.WalkForward | source/IcuLib/filteredbrk.cpp:339-408 | From first(), next() visits exactly the ends of the text and the boundaries of the delegate that are not exceptions. |
| FilteredBreaks.WalkBackward | source/IcuLib/filteredbrk.cpp:369-453 | From last(), previous() visits the same positions in reverse. |
| FilteredBreaks.Filtered.InternalNext | source/IcuLib/filteredbrk.cpp:339-367 | From a boundary of the delegate on, the first that is kept. |
| FilteredBreaks.Filtered.InternalPrev | source/IcuLib/filteredbrk.cpp:369-396 | From a boundary of the delegate back, the first that is kept. |
| FilteredBreaks.Filtered.Next | source/IcuLib/filteredbrk.cpp:399-402 | The next kept boundary, or none at the end. |
| FilteredBreaks.Filtered.Previous | source/IcuLib/filteredbrk.cpp:415-418 | The kept boundary before, or none at the start. |
| FilteredBreaks.IsBoundaryAgrees | source/IcuLib/filteredbrk.cpp:420-437 | isBoundary() agrees with what is visited if and only if neither end of the text is an exception. |
| FilteredBreaks.EndIsSuppressed | source/IcuLib/filteredbrk.cpp:420-453 | The text "Mr.", which ends in an abbreviation: its end is visited and does not count as a boundary. |
| FilteredBreaks.KeptMeaning | source/IcuLib/filteredbrk.cpp:339-408 | Which positions are kept, one by one. |
| Permutations.Permute | source/IcuLib/caniter.cpp:267-339 | The results are exactly the rearrangements in which whatever comes before a character of class 0 still does, or all rearrangements if zeros are not skipped. |
| Permutations.LeadRearranged | source/IcuLib/caniter.cpp:296-337 | Any result begins with a character that may lead, before a rearrangement of the others. |
| Permutations.RearrangedLeads | source/IcuLib/caniter.cpp:296-337 | And every such rearrangement is reached in that way. |
| Permutations.SourceIncluded | source/IcuLib/caniter.cpp:267-339 | The source itself is always a result. |
| Permutations.SameCharacters | source/IcuLib/caniter.cpp:267-339 | Every result has the characters of the source, as often. |
| CanonicalIterator.Enumerate | source/IcuLib/caniter.cpp:121-162 | Every combination of equivalents of the pieces is delivered exactly once, the last piece changing fastest, and then none; in each string, every chosen equivalent is where those of the pieces before it end. |
| CanonicalIterator.Iterator.Next | source/IcuLib/caniter.cpp:132-162 | The combination that is due, as the chosen equivalents in the order of the pieces, and one fewer to come. |
| CanonicalIterator.Iterator.Increment | source/IcuLib/caniter.cpp:151-160 | The digits count up by one. |
| CanonicalIterator.Iterator.Reset | source/IcuLib/caniter.cpp:121-126 | Starts again from the first combination. |
| CanonicalIterator.Carry | source/IcuLib/caniter.cpp:151-160 | A digit that goes up, with the full digits after it going to zero, adds one to the number. |
| CanonicalIterator.NumberInjective | source/IcuLib/caniter.cpp:132-162 | Different combinations have different numbers. |
| CanonicalIterator.NumberBelow | source/IcuLib/caniter.cpp:132-162 | Their numbers are those below the number of combinations. |
| CanonicalIterator.NumbersInOrder | source/IcuLib/caniter.cpp:149-162 | Combinations are delivered in the order of their digits, the first piece counting most. |
| Commands.CompositeUndo | source/CrossCutLib/Commander.cpp:277-281 | The parts of a command are undone in the order in which they were done; that restores the state if and only if doing them in reverse order would have led to the same state. |
| Commands.CompositeUndoCanFail | source/CrossCutLib/Commander.cpp:277-281 | A command whose undo does not restore the state, though the undo of each part does. |
| Commands.CommutingPartsUndo | source/CrossCutLib/Commander.cpp:277-281 | A command whose parts commute is undone correctly. |
| Commands.ExampleCompositeUndo | source/CrossCutLib/TestCommands.cpp:25-35 | A composite of the example commands, which append text, is undone correctly though they do not commute. |
| CommandHistory.Timeline.UndoThenRedo | source/CrossCutLib/Commander.cpp:553-587 | Any number of undos and then as many redos lead back, if and only if there was enough to undo or nothing to redo. |
| CommandHistory.Commander.UndoAndRedo | source/CrossCutLib/Commander.cpp:553-587 | The same for the stacks and the state of the commander, by as many calls. |
| CommandHistory.Timeline.NewCommandTruncates | source/CrossCutLib/Commander.cpp:474-479 | After a new command redo does nothing, and undo leads to the state before it. |
| CommandHistory.Commander.DoAndRecord | source/CrossCutLib/Commander.cpp:474-479 | The stacks of an undo id stay the two parts of one line of history, the state stays the replay of the first part, and a new command cuts off the second. |
| CommandHistory.Commander.TryUndo | source/CrossCutLib/Commander.cpp:553-569 | The cursor of the history moves back by one command, if there is one, and the state with it. |
| CommandHistory.Commander.TryRedo | source/CrossCutLib/Commander.cpp:571-587 | The cursor moves on by one command, if there is one, and the state with it. |
| CommandHistory.Commander.ClipRedos | source/CrossCutLib/Commander.cpp:513-522 | The redo stack of an id is emptied, the others are kept. |
| CommandHistory.Commander.AddUndo | source/CrossCutLib/Commander.cpp:524-538 | A command on top of the undo stack of an id, the others are kept. |
| CommandHistory.Commander.AddRedo | source/CrossCutLib/Commander.cpp:540-551 | The same for the redo stack. |
| CommandHistory.Commander.DoCommand | source/CrossCutLib/Commander.cpp:195-275 | The parts of a command are done in order, at any depth. |
| CommandHistory.Commander.UndoCommand | source/CrossCutLib/Commander.cpp:216-281 | The parts of a command are undone, at any depth, in the same order. |
| CommandHistory.IdsAreIndependent | source/CrossCutLib/Commander.cpp:513-587 | What happens under one undo id depends on the operations with that id alone. |
| CommandQueue.RunKeeps | source/CrossCutLib/Commander.cpp:41-148 | In every interleaving of clients and worker: commands are executed once each, in the order in which they were queued; the count is that of the synchronous commands outstanding; a queue that is not empty has the flag set that wakes the worker; the histories are the replay of what was executed. |
| CommandQueue.CountIsOutstanding | source/CrossCutLib/Commander.cpp:438-489 | The count equals the synchronous commands queued plus the one taken. |
| CommandQueue.CompleteIsEnabled | source/CrossCutLib/Commander.cpp:482-486 | The count never falls below zero. |
| CommandQueue.LeavingMeansDone | source/CrossCutLib/Commander.cpp:41-60 | A client leaves its call only after each synchronous command that it pushed is over and done with. |
| CommandQueue.UndoUsesLastAsked | source/CrossCutLib/Commander.cpp:106-126 | An undo is carried out under the id that was asked for if and only if the last undo that was pushed asked for that id too. |
| CommandQueue.RedoUsesLastAsked | source/CrossCutLib/Commander.cpp:128-148 | The same for a redo. |
| CommandQueue.TwoClientsUndo | source/CrossCutLib/Commander.cpp:106-126 | A run in which two clients undo, and the id of the first is never undone. |
| CommandQueue.PlainIsDone | source/CrossCutLib/Commander.cpp:474-479 | In every run, executing a plain command does it on the state of its id, makes it the last one to undo, leaves nothing to redo, and touches no other id. |
| CommandQueue.UndoGoesBack | source/CrossCutLib/Commander.cpp:468-469 | Executing an undo takes the history of the id that is held back by one command, if there is one. |
| CommandQueue.RedoGoesOn | source/CrossCutLib/Commander.cpp:470-471 | Executing a redo goes on by one command, if there is one. |
| CommandQueue.Dispatch | source/CrossCutLib/Commander.cpp:465-479 | What the worker does with an entry on the stacks and the state is what the step does to the histories; it stops after the command that ends it. |
| CommandQueue.DoUndoRedo | source/CrossCutLib/Commander.cpp:438-489 | If a single client does, undoes and redoes a command, the history of its id is as it was after the command. |
| CommandQueue.SingleClient | source/CrossCutLib/Commander.cpp:41-148 | If there is one client only, all is carried out as it was asked for, and the histories are the replay of its requests. |
| CommandQueue.SingleClientReturns | source/CrossCutLib/Commander.cpp:54-59 | When the only client returns from a call whose last command is synchronous, all it ever asked for has been done. |

## Left out

- BmpTables.BMPSet.constructor: words of 32 bits are numbers below 2^32 whose bits are given by a
  recursive function, and their and, or and shift are defined on these.
- EditsIterator.Iterator.Next: the string indexes are numbers without bound; the sums of lengths are
  taken to fit into 32 bits. The error code that is passed through is not modelled.
- EditsMerge.MergeAndAppend: the total lengths of a and c fit into 32 bits.
- CjkBreakEngine.Solve: no segmentation costs 2^32 - 1 or more, even one that is not taken.
- CjkBreakEngine.DivideUpDictionaryRange: normalisation, the dictionary and the map of native indexes
  are inputs; only the division of the normalised text is modelled.
- WordBreakEngine.BreakEngine.DivideUpDictionaryRange: the dictionary is an input; each character is one
  unit of the text, as in UTF-16 for these scripts.
- StringTrieBuilder.Builder.WriteBranchSubNode: the split levels are levels of recursion instead of
  entries of two tables; the bytes are written in the same order.
- StringTrieBuilder.Build: the elements come sorted; sorting, and the packing of their strings into one
  buffer, are not modelled, nor is the small build that shares equal nodes. That the bytes lay out a trie is
  not stated if a jump of a split is longer than 0xdffff, because longer ones are written wrongly.
- BytesTrieIterator.Iterator.Next: resetting the iterator is not modelled, nor what happens when a branch
  length is disturbed on the stack, by strings of 2^16 bytes or more, so that bytes that are no edges are read.
- FilteredBreaks.Filtered.InternalNext: whether there is an exception at a position is an input.
- CanonicalIterator.Iterator.Next: the pieces and their equivalents are inputs; normalisation is not
  modelled.
- Permutations.Permute: strings are sequences of code points, combining classes are an input.
- Commands.ExampleCompositeUndo: the example commands declare their two operations without the logger
  that the engine passes; they are modelled as what they are meant to do.
- CommandHistory.Commander.DoCommand: each undo id has a state of its own, on which its commands act;
  commands that fail, atomic commands, listeners and error handlers are not modelled.
- CommandQueue.RunKeeps: what is done under the lock is one step, and so are the execution of a command
  and each change of the counter; wake-ups that are lost or spurious are not modelled, nor that the
  counter has 32 bits.
- Failure of memory allocation, and copying and moving of edits.
- BMPSet::spanBackUTF8 and BytesTrie::findUniqueValue.
- The views of the program, its logging, resource bundles, locale data and file formats.
