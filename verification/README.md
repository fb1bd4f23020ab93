# only-connect-trivia, modelled in Dafny

A model of the logic in the Only Connect quiz presenter, with proofs. The
model covers:

- the slide-show state machine that reveals each question's tiles one key
  press at a time (`GameState::advance`);
- the greedy word wrap that fits clue text into a tile (`split_text`);
- the window layout (`Metrics::from_window_dimensions`);
- the three file loaders:
  - the plain question file the game binary reads (`load_questions` in
    `src/main.rs`);
  - the question-set file with titles, comments and picture clues
    (`load_questions` in `src/questions.rs`);
  - the index of set files to include and shuffle (`load_question_sets`).

Modules, one per file:

| file | module | what it holds |
|---|---|---|
| `option.dfy` | `Options` | `Option` |
| `strings.dfy` | `Strings` | prefixes, Unicode whitespace, `trim_start`, comment lines |
| `loading.dfy` | `Loading` | the line-by-line machine both question loaders share (`replace_question` and the loop), and the grammar it accepts |
| `format.dfy` | `Formats` | a question-file format as a reader plus a writer, and the generic load/write round trip |
| `text_loader.dfy` | `TextLoader` | `load_questions` of `src/main.rs` |
| `set_loader.dfy` | `SetLoader` | `load_questions` of `src/questions.rs`, including the picture-clue pattern |
| `set_index.dfy` | `SetIndex` | `load_question_sets` |
| `text_wrap.dfy` | `TextWrap`, `TextWrapIdempotence` | `split_text` |
| `text_offsets.dfy` | `TextOffsets` | the byte offsets `split_text` slices at |
| `layout.dfy` | `Layout` | `Metrics::from_window_dimensions` |
| `game.dfy` | `Game` | `GameState::advance` |

How outside inputs are modelled:

- **Files** are a map from path to the lines `BufReader::lines` yields.
  Each line is either its text or the I/O error met reading it.
- **Pictures** that `Surface::from_file` can load are a set of paths.
- **The shuffle** is a parameter `order`.
- **The font's `size_of`** is a parameter `measure`.
- **`Instant::now()`** is a tick count passed in by the caller.
- **Error messages** are `LoadError` values that carry the text the program's
  message quotes; a file that cannot be opened is the exception (see Left out).

Behaviour worth knowing before reading the proofs:

- `split_text` returns no lines for empty text or text made only of spaces (`TextWrap.NoLinesIffBlank`); only U+0020 separates words, so a text of tabs or line feeds is one word.
- A wrapped line is a slice of the original text, so runs of spaces inside a line are kept.
- `split_text` slices at byte offsets that can fall inside a multi-byte character (see Findings).

## Model

| member | source | states |
|---|---|---|
| `Strings.TrimStart` | src/questions.rs:58 | trimming never lengthens the line |
| `Strings.TrimStartDrops` | src/questions.rs:58 | `trim_start` leaves a suffix that starts with no whitespace, and everything it drops is whitespace |
| `Strings.TrimStartSkips` | src/questions.rs:137 | indenting by spaces does not change the trimmed line, so indentation never hides or creates a comment |
| `Loading.Close` | src/questions.rs:104-124 | `replace_question` opens the next question; an open question with exactly four clues is appended to the questions, one with any other count adds `WrongClueCount` naming its connection to the errors, and with none open nothing else changes |
| `Loading.Run` | src/questions.rs:134-185 | over the loop, loaded questions and errors only ever grow |
| `Loading.Step` | src/questions.rs:135-184 | one line of the loop: questions and errors only grow; an ignored line changes nothing; a header opens a fresh question with no clues; a clue with no question open adds `OrphanClue` quoting its text; the exact outcome of each kind is what `Loading.Close`, `Loading.RunClues` and `Loading.FinishReportsBad` state |
| `Loading.Finish` | src/questions.rs:187-194 | a failed load always reports at least one error |
| `Loading.Significant` | src/questions.rs:137-139 | the lines that matter contain no ignored line and come from the input |
| `Loading.RunAppend` | src/questions.rs:134-185 | the loop over `a + b` is the loop over `a` continued over `b` |
| `Loading.RunSkips` | src/questions.rs:137-139 | ignored lines change nothing: the loop over all lines equals the loop over the significant ones |
| `Loading.NoSkipIsSignificant` | src/questions.rs:137-139 | with no ignored line, every line is significant |
| `Loading.FinishIgnoresSkips` | src/questions.rs:137-139 | two inputs with the same significant lines load to the same result |
| `Loading.LeadingClues` | src/questions.rs:160-176 | the length of the leading run of clue lines: all before it are clues, the one at it is not |
| `Loading.RunClues` | src/questions.rs:160-176 | with a question open, a run of clue lines appends exactly its clues to that question and changes nothing else |
| `Loading.CloseReady` | src/questions.rs:104-124 | closing a complete question in an error-free state appends it to the questions and reports nothing |
| `Loading.BlockStep` | src/questions.rs:140-176 | a header followed by four clues, read in a ready state, leaves that question open and no error |
| `Loading.RunBlocks` | src/questions.rs:134-188 | completeness: well-formed blocks load in order with no error |
| `Loading.WrongCountFails` | src/questions.rs:109-120 | a question with other than four clues leads to an error; when a header or the end of the file closes it, the error is `WrongClueCount` naming its connection, right after the errors before it, and it stays |
| `Loading.ErrorsStay` | src/questions.rs:134-194 | an error once recorded is still reported after the rest of the loop and the final close |
| `Loading.NoHeaderNoneOpen` | src/questions.rs:140-176 | before the first header no question is open |
| `Loading.RunAt` | src/questions.rs:134-185 | the loop reaches each line in the state the earlier lines left |
| `Loading.FinishReportsBad` | src/questions.rs:169-182 | a line that is itself an error (an unreadable line, an unloadable picture, an unknown line) fails the load and its error is among those reported |
| `Loading.FinishReportsOrphan` | src/questions.rs:160-176 | a clue before any header fails the load with `OrphanClue` quoting the clue's text |
| `Loading.NotHeaderFails` | src/questions.rs:160-178 | in a ready state, a significant line that is not a header leads to an error |
| `Loading.HeaderBlock` | src/questions.rs:140-176 | an error-free load that starts with a header starts with a whole five-line block |
| `Loading.RunSound` | src/questions.rs:134-188 | soundness: an error-free load is a sequence of well-formed blocks |
| `Loading.FinishOkIff` | src/questions.rs:134-194 | a load succeeds with `qs` exactly when its significant lines are the blocks of `qs` |
| `Loading.BlocksHaveNoSkip` | src/questions.rs:137-176 | blocks consist only of headers and clues |
| `Loading.BlocksHaveFourClues` | src/questions.rs:109 | every question spelled by blocks has four clues |
| `Loading.LoadedQuestionsHaveFourClues` | src/questions.rs:109-114 | every question a successful load returns has exactly four clues |
| `Formats.Kept` | src/questions.rs:137-139 | the kept lines are input lines that the format does not skip |
| `Formats.Load` | src/questions.rs:187-194 | a failed load always reports at least one error |
| `Formats.RenderQuestion` | src/questions.rs:140-176 | a question is written as one header line plus one line per clue |
| `Formats.SignificantClassified` | src/questions.rs:137-139 | dropping ignored lines and classifying commute |
| `Formats.KeptAll` | src/main.rs:319-350 | a format that skips nothing keeps every line |
| `Formats.BlockIff` | src/questions.rs:140-176 | five lines form the block of `q` exactly when they are `q` written out and the format can carry each clue of `q` |
| `Formats.BlocksIff` | src/questions.rs:134-185 | lines are blocks of `qs` exactly when they are `qs` written out and every question is carriable |
| `Formats.LoadOkIff` | src/questions.rs:134-194 | a faithful format loads `qs` exactly when its non-skipped lines are `qs` written out, each question carriable |
| `Formats.RoundTrip` | src/questions.rs:134-194 | writing carriable questions and loading them gives the same questions back |
| `Formats.LoadableHasFour` | src/questions.rs:109 | a carriable question has four clues |
| `TextLoader.LoadQuestions` | src/main.rs:281-360 | a file that cannot be opened is reported as exactly that one error; otherwise its lines are loaded |
| `TextLoader.Classify` | src/main.rs:320-349 | no line is ignored, since the plain format has no comments, and a clue's quoted text is the clue; which lines are headers and clues is `TextLoader.ClassifyHeaderIff` and `TextLoader.ClassifyClueIff` |
| `TextLoader.LoadLines` | src/main.rs:319-359 | a failed load reports at least one error and a successful one has four clues per question; exactly when it succeeds is `TextLoader.LoadLinesOkIff` |
| `TextLoader.ClassifyHeaderIff` | src/main.rs:322-335 | a line reads as a header exactly when it is `sequence: ` or `connection: ` followed by the connection |
| `TextLoader.ClassifyClueIff` | src/main.rs:336-341 | a line reads as a clue exactly when it is four spaces followed by the clue |
| `TextLoader.TextFormatFaithful` | src/main.rs:322-344 | the plain format reads back exactly what it writes, and reads nothing else as a header or a clue |
| `TextLoader.LoadLinesOkIff` | src/main.rs:319-359 | a file loads as `qs` exactly when each question has four clues and the file is `qs` written out: the format has one spelling per question list |
| `TextLoader.RoundTrip` | src/main.rs:319-359 | writing questions with four clues each and loading them gives them back |
| `SetLoader.WordLength` | src/questions.rs:12 | the `(\S+)` capture never runs past the line |
| `SetLoader.WordLengthStops` | src/questions.rs:12 | `(\S+)` takes the maximal run of non-whitespace characters |
| `SetLoader.MatchPicture` | src/questions.rs:12 | a match gives the line back as the picture prefix, the path, one space and the text, the text of the `(\S.+)` shape; both directions are `SetLoader.MatchPictureIff` |
| `SetLoader.Classify` | src/questions.rs:135-183 | a line is ignored exactly when it is a comment, and only a readable non-comment line is a header or a clue; which ones are is `SetLoader.ClassifyHeaderIff` and `SetLoader.ClassifyClueIff` |
| `SetLoader.WordLengthOf` | src/questions.rs:12 | a path without whitespace, followed by whitespace, is captured whole |
| `SetLoader.PictureLineMatches` | src/questions.rs:12 | `        picture: <path> <text>` matches and captures the path and the text, when both have accepted shapes |
| `SetLoader.MatchPictureIff` | src/questions.rs:12 | the pattern captures `(p, t)` exactly from the line `        picture: p t` with `p` and `t` of accepted shapes |
| `SetLoader.IndentedNotComment` | src/questions.rs:137 | spaces, then a character that is neither whitespace nor `#`, is not a comment |
| `SetLoader.ClassifiedHeader` | src/questions.rs:140-153 | only the two header prefixes make a header, and the connection is the rest of the line |
| `SetLoader.HeaderNotComment` | src/questions.rs:137-147 | no header line is a comment |
| `SetLoader.HeaderLineClassified` | src/questions.rs:137-153 | a written header line is read back as that header |
| `SetLoader.ClassifyHeaderIff` | src/questions.rs:140-153 | a line reads as a header exactly when it is that header's prefix followed by the connection |
| `SetLoader.IndentedNotHeader` | src/questions.rs:140-147 | a line with a space at its fifth character starts with neither header prefix |
| `SetLoader.ClassifiedClue` | src/questions.rs:154-176 | a clue comes either from a picture line whose image loads or from an eight-space line the pattern rejects |
| `SetLoader.ClueIndent` | src/questions.rs:137-171 | eight spaces of indentation hide neither a comment nor the clue, and make no header |
| `SetLoader.TextClueLine` | src/questions.rs:171-173 | a writable text clue's line is read back as that text clue |
| `SetLoader.PictureClueLine` | src/questions.rs:154-161 | a writable picture clue's line is read back as that picture clue |
| `SetLoader.ClassifyClueIff` | src/questions.rs:154-176 | a line reads as clue `c` exactly when it is `c` written out and `c` is writable |
| `SetLoader.SetFormatFaithful` | src/questions.rs:134-185 | the set format reads back exactly what it writes, and reads nothing else as a header or a clue |
| `SetLoader.SkipIffComment` | src/questions.rs:137-139 | the only lines ignored are comments |
| `SetLoader.ClassifiedNotSkip` | src/questions.rs:137-179 | a line that is not a comment is never ignored |
| `SetLoader.NonComments` | src/questions.rs:137-139 | the non-comment lines are input lines that are not comments |
| `SetLoader.KeptNonComments` | src/questions.rs:137-139 | the set format keeps exactly the non-comment lines |
| `SetLoader.CommentsIgnored` | src/questions.rs:137-139 | comments after the title change nothing |
| `SetLoader.LoadLines` | src/questions.rs:126-194 | no lines, or a first line that fails to read, is the one error `NoLines`; a loaded set's title is the first line; a failed load always says why |
| `SetLoader.LoadQuestions` | src/questions.rs:88-100 | a file that cannot be opened is reported as exactly that one error |
| `SetLoader.LoadLinesOkIff` | src/questions.rs:126-194 | a file loads as set `s` exactly when its first line is the title and its other lines, comments aside, are the questions written out, each carriable |
| `SetLoader.LoadedSetIsLoadable` | src/questions.rs:109-114 | every loaded question has four clues, each of a shape the format can carry (`Formats.LoadableHasFour` gives the four) |
| `SetLoader.RoundTrip` | src/questions.rs:126-194 | writing a set of carriable questions and loading it gives the set back |
| `SetLoader.UnloadablePictureLine` | src/questions.rs:154-170 | a line the picture pattern matches whose image does not load is read as `ImageLoad` of the captured path |
| `SetLoader.UnloadablePictureReported` | src/questions.rs:154-170 | such a line anywhere after the title fails the load, and `ImageLoad` of its path is among the errors |
| `SetLoader.OrphanClueReported` | src/questions.rs:154-176 | a text or picture clue line before any header line fails the load, and `OrphanClue` quoting the clue's text is among the errors |
| `SetIndex.Collect` | src/questions.rs:55-79 | over the loop, loaded sets and errors only ever grow |
| `SetIndex.CollectStep` | src/questions.rs:56-78 | one index line: sets and errors only grow, by at most one set, and only an include adds a set; the exact errors and sets are `SetIndex.StepErrors`, `SetIndex.StepOutputs` and `SetIndex.LineErrorsIff` |
| `SetIndex.LoadQuestionSets` | src/questions.rs:48-51 | an index that cannot be opened is reported as exactly that one error |
| `SetIndex.SetFilesExplain` | src/questions.rs:88-194 | the set-file loader never fails without saying why |
| `SetIndex.LineErrorsIff` | src/questions.rs:56-78 | an index line adds no error exactly when it is a comment or an include of a set that loads |
| `SetIndex.StepErrors` | src/questions.rs:56-78 | one line adds its own errors and nothing else |
| `SetIndex.StepOutputs` | src/questions.rs:58-68 | an accepted include adds its set, shuffled as the next set; an accepted comment adds nothing |
| `SetIndex.CollectErrors` | src/questions.rs:55-79 | the loop reports, in order, exactly the errors of its lines |
| `SetIndex.NoLineErrorsIff` | src/questions.rs:55-79 | no line reports an error exactly when every line is accepted |
| `SetIndex.LoadedInOrderCons` | src/questions.rs:62-68 | a set loaded at one position followed by the sets after it makes the sets loaded in order |
| `SetIndex.CollectContents` | src/questions.rs:55-79 | with every line accepted, the loop loads the included sets in order, each shuffled |
| `SetIndex.LoadQuestionSetsOkIff` | src/questions.rs:48-86 | the index loads exactly when it opens and every line is a comment or an include of a set that loads |
| `SetIndex.LoadQuestionSetsErrors` | src/questions.rs:48-86 | when an index that opens fails, its errors are its lines' errors, in order |
| `SetIndex.LoadQuestionSetsContents` | src/questions.rs:48-86 | a loaded index holds one set per include line, in order, each that file's set with its questions permuted |
| `TextWrap.StartsIn` | src/main.rs:467 | every reported offset in the range is a word start |
| `TextWrap.EndsIn` | src/main.rs:468 | every reported offset in the range is a word end |
| `TextWrap.StartsInIncreasing` | src/main.rs:474-477 | word starts come out strictly increasing, like the matches of `find_iter` |
| `TextWrap.EndsInIncreasing` | src/main.rs:478-481 | word ends come out strictly increasing |
| `TextWrap.StartsInComplete` | src/main.rs:474-477 | no word start is missed |
| `TextWrap.EndsInComplete` | src/main.rs:478-481 | no word end is missed |
| `TextWrap.WordBoundaries` | src/main.rs:483 | the `assert_eq!` holds: starts and ends pair up and interleave, start before end, and no end lies past the text |
| `TextWrap.WordExtent` | src/main.rs:468 | from a non-space character, the end of its word lies ahead, with no space on the way |
| `TextWrap.WordEndIsExtent` | src/main.rs:474-483 | the end paired with word `k` is the first word end after its start |
| `TextWrap.WordIsSpaceFree` | src/main.rs:467-468 | a word holds no space |
| `TextWrap.NoWordsIffBlank` | src/main.rs:474-477 | there is no word exactly when every character is a space |
| `TextWrap.SegmentBounds` | src/main.rs:493 | the slice from word `i`'s start to word `j`'s end lies in the text and begins and ends with a non-space |
| `TextWrap.ScanFrom` | src/main.rs:491-500 | the inner loop ends on the last word `j` such that every run up to it fits, and the next run does not fit or there is no next word |
| `TextWrap.LastWordOfLine` | src/main.rs:491-500 | a line's last word obeys the greedy rule |
| `TextWrap.GreedyUnique` | src/main.rs:491-500 | only one last word obeys the greedy rule, so the line is determined by its first word |
| `TextWrap.LineRangesFrom` | src/main.rs:489-505 | the outer loop's lines cover the remaining words in order, each once, each greedy |
| `TextWrap.LineRanges` | src/main.rs:485-507 | the lines cover all words in order, each once, each greedy |
| `TextWrap.SplitText` | src/main.rs:466-508 | `split_text`: one line per greedy word range, and no line exactly when the text has no word; what each line is, that it fits, that it is trimmed and that rewrapping it changes nothing are `TextWrap.LinesAreWordRuns`, `TextWrap.LinesFitOrSingleWord`, `TextWrap.LinesAreTrimmed`, `TextWrap.NoLinesIffBlank` and `TextWrapIdempotence.SplitTextIdempotent` |
| `TextWrap.LinesAreWordRuns` | src/main.rs:485-507 | the lines take the words in order, each once, and line `k` is the slice of the text from the start of its first word to the end of its last word, both offsets inside the text |
| `TextWrap.LinesFitOrSingleWord` | src/main.rs:495-502 | each line measures at most the width, or is a single word |
| `TextWrap.LinesAreTrimmed` | src/main.rs:502 | no line is empty or begins or ends with a space |
| `TextWrap.NoLinesIffBlank` | src/main.rs:472-508 | the result is empty exactly for text made only of spaces |
| `TextWrapIdempotence.StartsInSplit` | src/main.rs:474-477 | the starts of a range are the starts of its two halves |
| `TextWrapIdempotence.EndsInSplit` | src/main.rs:478-481 | the ends of a range are the ends of its two halves |
| `TextWrapIdempotence.StartsInSlice` | src/main.rs:474-477 | the word starts of a slice cut at a word boundary are the text's starts in that range, shifted |
| `TextWrapIdempotence.EndsInSlice` | src/main.rs:478-481 | the word ends of a slice cut at word boundaries are the text's ends in that range, shifted |
| `TextWrapIdempotence.SegmentOfSegment` | src/main.rs:493 | the words of a line are the words of the run it was cut from |
| `TextWrapIdempotence.RunStaysGreedy` | src/main.rs:491-500 | a greedy run, taken on its own, fits in the same places |
| `TextWrapIdempotence.SingleRun` | src/main.rs:489-505 | text whose words form one greedy run is wrapped as that one run |
| `TextWrapIdempotence.RewrapRun` | src/main.rs:472-508 | a greedy run, wrapped on its own, is one line |
| `TextWrapIdempotence.SplitTextIdempotent` | src/main.rs:472-508 | wrapping one output line again, with the same width and measure, gives exactly that line |
| `TextOffsets.Utf8Len` | src/main.rs:476 | a character takes one to four bytes, and one exactly when it is ASCII |
| `TextOffsets.StartByte` | src/main.rs:476 | corrected: the word-start offset is the byte offset of the word's first character, a character boundary |
| `TextOffsets.EndByte` | src/main.rs:480 | corrected: the word-end offset is the byte offset just past the word's last character, a character boundary |
| `TextOffsets.ByteOffsetGrows` | src/main.rs:476-480 | byte offsets grow with the character index, by each character's width |
| `TextOffsets.InsideNotBoundary` | src/main.rs:493 | an offset strictly inside a character is no character boundary |
| `TextOffsets.StartByteAsWrittenIff` | src/main.rs:476 | as written, `m.end() - 1` is a character boundary exactly when the word's first character is one byte |
| `TextOffsets.EndByteAsWrittenIff` | src/main.rs:480 | as written, `m.start() + 1` is a character boundary exactly when the word's last character is one byte |
| `TextOffsets.CorrectionAgreesOnAscii` | src/main.rs:476-480 | the corrected offsets equal the written ones exactly when the edge characters are ASCII |
| `TextOffsets.CafeEndsInsideCharacter` | src/main.rs:480 | in "café", the written word end falls inside the `é` |
| `TextOffsets.ElanStartsInsideCharacter` | src/main.rs:476 | in "élan", the written word start falls inside the `é` |
| `TextOffsets.ByteOffsetSlice` | src/main.rs:493 | the bytes of `text[s..e]` are the bytes between the offsets of `s` and `e` |
| `TextOffsets.SamePrefixSameOffset` | src/main.rs:493 | an offset depends only on the characters before it |
| `TextOffsets.CorrectedSliceBytes` | src/main.rs:493 | with the corrected offsets, the slice taken for a line holds exactly that line's bytes |
| `Layout.Leftover` | src/main.rs:402-403 | what the four tiles leave is `(5 * width + 4 * (8 * width mod 37)) / 37`, exactly |
| `Layout.TextSize` | src/main.rs:411-412 | the font size fits in 16 bits, and is exactly two fifths of the answer bar, rounded down, whenever that fits |
| `Layout.FromWindowDimensions` | src/main.rs:394-428 | when the program does not panic, both margins are the computed margin, the tile size is the computed tile size and the stride is tile plus gap |
| `Layout.FromWindowDimensionsFramed` | src/main.rs:402-427 | when the program does not panic: tiles, gaps and margins fill the width; the answer bar spans the tiles and sits one margin above the bottom and one gap below the tiles; the rounded ratios hold; every field fits its integer type |
| `Layout.Parts` | src/main.rs:403-405 | with leftover `5q + r`, the gap is `q` or `q + 1` and the margin is between `q - 1` and `q + 2`, fixed by `r` |
| `Layout.LeftoverIsOneIff` | src/main.rs:402-403 | the leftover is one pixel exactly for windows 1 and 5 pixels wide |
| `Layout.SpacingFitsIff` | src/main.rs:404-405 | the three gaps fit in the leftover (the subtraction at line 405 does not underflow) exactly when it is not one pixel |
| `Layout.MarginNearSpacing` | src/main.rs:397-405 | margin and gap differ by at most two pixels |
| `Layout.LayoutAddsUp` | src/main.rs:407 | the `assert_eq!` cannot fail once the gaps fit: four tiles, three gaps and two margins add up to the width |
| `Layout.FromWindowDimensionsDefinedIff` | src/main.rs:402-415 | in a build with overflow checks, the program runs without panicking exactly when `8 * width` fits in `u32`, the width is not 1 or 5, and the height holds margin, answer bar, gap and tiles |
| `Game.Advance` | src/main.rs:230-263 | a press changes only the phase, and reports "redraw" exactly when a question not on screen before comes up |
| `Game.Presses` | src/main.rs:102-105 | a run of presses keeps the question list |
| `Game.StartShowsFirstClue` | src/main.rs:232-240 | from the start page, a press shows question 0 with one clue, started now, and asks for a redraw |
| `Game.RevealNext` | src/main.rs:246-248 | with tiles still hidden, a press reveals one more and keeps the question and its start time, with no redraw |
| `Game.NextQuestionOrEnd` | src/main.rs:249-259 | with all five tiles shown, a press moves to the next question, started now, or to the end page after the last |
| `Game.EndPageAbsorbs` | src/main.rs:261 | no run of presses leaves the end page |
| `Game.AdvanceValid` | src/main.rs:242-260 | with at least one question, a press keeps the shown question in range and between one and five tiles shown |
| `Game.AdvanceProgress` | src/main.rs:230-263 | every press before the end page brings the end page exactly one press closer |
| `Game.RemainingZeroIff` | src/main.rs:230-263 | no presses remain exactly at the end page |
| `Game.PressesReachEndIff` | src/main.rs:230-263 | from a valid state, a run of presses ends on the end page exactly when it is at least as long as the presses remaining, and every state passed through is valid |
| `Game.WholeGame` | src/main.rs:230-263 | a game of `n` questions goes from the start page to the end page in exactly `1 + 5n` presses |
| `Game.NoQuestionsShowsMissing` | src/main.rs:232-240 | with no questions, the first press still opens question 0, which the display code at line 118 cannot index |
| `Game.AdvanceGuarded` | src/main.rs:232-240 | corrected press: from a valid state the result is valid even with no questions, and with questions it is the program's press |
| `Game.AdvanceGuardedValid` | src/main.rs:232-240 | with the guard, a press keeps every valid state valid, and the empty game goes from the start page to the end page |

## Left out

- Rendering, the SDL window, fonts, textures and the event loop (`main`, `render_text`): drawing only; the model covers the logic those parts call.
- File opening and reading: a map from path to the lines read; the OS error text of a line that cannot be read is carried as an opaque string.
- TextLoader.LoadQuestions: a file that cannot be opened is reported as `CannotOpen(path)`, where the program reports only the OS error text (`e.to_string()`, src/main.rs:287-293), which need not name the path; the OS text is not modelled.
- SetLoader.LoadQuestions: likewise `CannotOpen(path)` for a set file that cannot be opened, where the program prints only the OS error text (src/questions.rs:94-99); two missing files the program reports with the same text are told apart in the model.
- SetIndex.LoadQuestionSets: likewise `CannotOpen(path)` for an index that cannot be opened, where the program returns only the OS error text (src/questions.rs:51).
- `Surface::from_file`: a set of loadable picture paths; the image itself is not modelled.
- The random shuffle of `load_question_sets`: the parameter `order`; `SetIndex.LoadQuestionSetsContents` assumes only that it permutes the questions.
- `font.size_of`: the parameter `measure`; its error case (`unwrap`) is not modelled.
- The regex engine: replaced by direct definitions of what the picture pattern and the word-start and word-end patterns match.
- Byte offsets in `split_text`: `TextWrap` works on character indices, and `TextOffsets` relates them to the program's byte offsets, which differ (see Findings).
- `Instant::now()`: an integer the caller supplies; `time_per_question` is kept and, as in the program, never read.
- `usize` overflow: not modelled, since `clues_shown` stays at most five and the question index below the question count.
- Error message strings: modelled as `LoadError` values naming what the message quotes.
- Strings.TrimStart: its contract only bounds the length, so that the whitespace facts are not assumed wherever a line is classified; `Strings.TrimStartDrops` states them.
- SetLoader.WordLength: its contract only bounds the length, for the same reason; `SetLoader.WordLengthStops` states where the word stops.
- Layout.FromWindowDimensions: follows `u32` arithmetic with overflow checks on, as in a debug build; a release build wraps instead (width 1 or 5 then passes the `assert_eq!` with a wrapped margin), and that behaviour is not modelled.
- Layout.FromWindowDimensions: its contract names only the fields the other lemmas build on; `Layout.FromWindowDimensionsFramed` and `Layout.FromWindowDimensionsDefinedIff` state the rest.

## Findings

| source | as written | input that shows it | evidently intended | confidence | as-written member | corrected member |
|---|---|---|---|---|---|---|
| src/main.rs:474-481 | word starts are `m.end() - 1` and word ends `m.start() + 1`, in bytes, so they fall inside a multi-byte first or last character and `&text[..]` at line 493 or 502 panics | the clue text `café` (word end at byte 4, inside the two-byte `é`) or `élan` (word start at byte 1) | the byte offsets of the word's first character and of the end of its last character (step back or forward by `len_utf8`, not by one byte) | high; not executed | `TextOffsets.CafeEndsInsideCharacter` | `TextOffsets.EndByte` |
| src/main.rs:117-118 | the first press on the start page opens question 0 whatever the question count, and the redraw indexes `questions[0]` | an empty `connections.txt`, which `load_questions` accepts as `Ok` with no questions (src/main.rs:355-359) | an empty game shows no question; the first press goes to the end page | medium; not executed | `Game.NoQuestionsShowsMissing` | `Game.AdvanceGuarded` |
