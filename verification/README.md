# Vivi, verified

Vivi shows a workspace for review: side-by-side diffs, rendered HTML with comment anchors, text and file search, threads of
comments between people and coding agents, and a live view of the files. This project models the parts of it that are logic
over values or over files seen as records, and proves what they promise. It is written in Dafny 4.11;
`dafny verify dfyconfig.toml` checks all of it.

The modules follow the components of the program:

- `LineDiff`, `DiffText`: the longest-common-subsequence diff with its flat 16-bit table, the interleaving of replacement runs,
  the printed unified diff, its parser and the side-by-side rows.
- `Utf8`, `TextSearch`, `FileSearch`: UTF-8 safety of text (the grammar is that of section 4 of RFC 3629), the streaming scan of a
  file, the Horspool search and the bounded ranking of file names.
- `Paths`, `PathGlob`: normalization of workspace paths and exclude patterns, on strings with an offset and on lists of segments.
- `HtmlTokens`, `CommentBlocks`, `CommentBlockParsers`: the scanner of comment blocks, its laminar line ranges, the parser with a
  line counter beside the one that recounts, and the splicing of annotations.
- `CommentModel`, `PublishDrafts`, `StoreRuns`, `ReadReceipts`, `CommentStore`: the comment store as three files, the operations
  as functions on them, runs of operations, and the class whose methods carry the operations out.
- `WatchTree`, `EventServices`, `WorkspaceWatcher`: the watched tree, the events that tell clients about it, and the versioned
  event service with its bounded queues.
- `RenameChains`, `RenameDetection`, `ActivityCache`: collapsed renames of a review and the bounded cache of thread activity.
- `SafeText`: the escaping of external text on the command line.
- `Sequences`, `Ordering`: shared vocabulary.

Code that works by loops and updates is modelled by methods and classes; each is tied by its `ensures` to a function, and the
theorems are about that function. Code made of expressions is modelled by functions.

Some promises turned out to hold only under a condition. For these the model keeps what the code does, a lemma gives the exact
condition, and where the failing input is not obvious another lemma gives one:

- A diff does not read back when an added or removed line is empty, looks like a file header behind its mark, or loses a final
  CR (`DiffText.ReviewShowsBothFiles`, `DiffText.EmptyRemovedLineIsMissing`).
- Normalizing a path twice can differ from normalizing it once, because white space at the start of the first segment that
  survives, or at the end of the last one, comes to lie at an end of the path (`Paths.IdempotentExactly`, `Paths.NotIdempotent`).
- A draft that spells the id of an existing thread with white space around it passes the check of its target and is then
  published into a thread that does not exist (`PublishDrafts.PublishedThreadIsKnown`, `PublishDrafts.PaddedThreadNameIsLost`).
- A request with a client event id and a thread id that is blank but not empty is not recognized when it is repeated
  (`StoreRuns.CreatingAgainIsTheSame`, `StoreRuns.BlankThreadIdCreatesTwice`).
- A read with a client event id that has white space around it is recorded trimmed, looked up as it came, and so never
  recognized (`ReadReceipts.RetriedReadIsRecognized`, `ReadReceipts.PaddedReadIsRecordedTwice`).
- A thread that was seen becomes unseen when its last human comment is deleted while comments of agents are left
  (`ReadReceipts.SeenAfterDeletion`, `ReadReceipts.DeletionMakesUnseen`).

## Model

| member | source | states |
|---|---|---|
| LineDiff.ScriptKeepsLongest | server/typescript/domain/change-review.ts:142-229 | up to 2,000,000 cells, the context lines of the script are a common subsequence of the two files and no common subsequence is longer |
| LineDiff.ScriptShowsBothFiles | server/typescript/domain/change-review.ts:142-229 | removed and context lines are the old file, added and context lines the new file, both in order and numbered from 1, in the table path and in the oversize path |
| LineDiff.OversizeKeepsNothing | server/typescript/domain/change-review.ts:146-160 | above the bound nothing is kept, not even of equal files |
| LineDiff.OversizeReplacesAll | server/typescript/domain/change-review.ts:146-160 | above the bound the script is all old lines removed, in order, then all new lines added, in order |
| LineDiff.ScoresFitSixteenBits | server/typescript/domain/change-review.ts:162-176 | no cell of the table can exceed 1414, so the unsigned 16-bit table never wraps |
| LineDiff.ScoreBoundsCommon | server/typescript/domain/change-review.ts:162-176 | a cell bounds the length of every common subsequence of the two suffixes |
| LineDiff.FillTable | server/typescript/domain/change-review.ts:162-176 | the loop over the flat 16-bit array leaves in every cell the score of its two suffixes |
| LineDiff.FillCell | server/typescript/domain/change-review.ts:166-174 | one assignment, reduced modulo 65536, keeps the part of the table that is filled |
| LineDiff.GreedyWalk | server/typescript/domain/change-review.ts:178-227 | the loop over the filled table emits the walk, with the ties and the leftovers of the code |
| LineDiff.WalkSides | server/typescript/domain/change-review.ts:178-227 | any suffix of the walk shows both file suffixes and keeps as many lines as the table says |
| LineDiff.WalkGivesUpOldFirst | server/typescript/domain/change-review.ts:193-209 | between two different lines the walk removes the old one if and only if a longest common subsequence of the rest does without it, and else adds the new one |
| LineDiff.InterleaveReplacementRuns | server/typescript/domain/change-review.ts:231-264 | the index-moving loop returns the interleaved script that the laws of runs are about |
| LineDiff.RunsAlternate | server/typescript/domain/change-review.ts:231-264 | a maximal run of removals and the additions behind it come out alternately, removal `k` at place 2k and addition `k` behind it, then what is left of the longer run, then the rest interleaved |
| LineDiff.FrontStays | server/typescript/domain/change-review.ts:235-243 | what stands in front of the first removal stays where it is |
| LineDiff.InterleavedSides | server/typescript/domain/change-review.ts:231-264 | interleaving changes neither side of the script nor its context lines |
| LineDiff.ContextIsCommon | server/typescript/domain/change-review.ts:142-229 | the context lines of any script are a subsequence of each of its sides |
| LineDiff.BuildInterleavedLineDiff | server/typescript/domain/change-review.ts:142-229 | the whole operation returns the interleaved walk up to the bound, and above it all removals followed by all additions |
| DiffText.ReviewShowsBothFiles | ui/src/state/git-review.ts:217-342 | from two file contents through diff, printed text, parse and rows: left column is the old file and right column the new file, numbered, if and only if every operation survives its printed form |
| DiffText.ReadsBackExactly | ui/src/state/git-review.ts:240-276 | a printed script of any length parses to both its sides if and only if no operation is lost as a header or as an empty line and none loses a final CR |
| DiffText.PrintableFilesReadBack | ui/src/state/git-review.ts:217-342 | files without empty lines, final CRs and header-like lines always read back |
| DiffText.EmptyRemovedLineIsMissing | ui/src/state/git-review.ts:274-277 | a concrete pair of files (empty, then "a") whose columns do not read back, because empty removed lines are filtered out |
| DiffText.HunkRowShowsCounts | server/typescript/domain/change-review.ts:88-103 | the one hunk row of the review reads `@@ -1,n +1,m @@` with the line counts of both files |
| DiffText.PrintedDiffNamesTheFile | server/typescript/domain/change-review.ts:89-104 | the printed diff starts with its four header lines, which name the file with `a/` and with `b/` |
| DiffText.RowsColumns | ui/src/state/git-review.ts:279-342 | for any parse the two columns of the rows are the two sides of the parse, in order, nothing lost and nothing twice |
| DiffText.RunsStandSideBySide | ui/src/state/git-review.ts:307-331 | a maximal run of removed lines and the added lines behind it become rows rank against rank: changed where both are, removed or added where one run has ended, with the text and the number of each side, and nothing where there is none |
| DiffText.OtherLinesStandAlone | ui/src/state/git-review.ts:289-338 | an unchanged line has a row with both sides, an added line without a removed one a row with its right side, a header or hunk line a row with its text |
| DiffText.RowKindsTell | ui/src/state/git-review.ts:279-342 | in all rows of all parses the kind of a row says exactly which of its two texts are there |
| DiffText.BuildSideBySideDiffRows | ui/src/state/git-review.ts:279-342 | the nested index loops return the rows that the columns theorem is about |
| DiffText.ParseUnifiedDiff | ui/src/state/git-review.ts:217-277 | the loop over raw lines, with limit, counters and final filter, returns the parse that the round trip is about |
| DiffText.HunkLineReads | ui/src/state/git-review.ts:234-239 | every hunk line, with or without counts and with any heading behind its marks, gives its two start numbers |
| DiffText.OnlyHunkLinesRead | ui/src/state/git-review.ts:234-239 | whatever is read as a hunk line is written as one |
| DiffText.NoOldNumbers | ui/src/state/git-review.ts:264-272 | without a hunk line and a removed line in front of it no line has an old number |
| DiffText.NoNewNumbers | ui/src/state/git-review.ts:264-272 | without a hunk line and an added line in front of it no line has a new number |
| DiffText.LimitKeepsTheBeginning | ui/src/state/git-review.ts:226-232 | a limit keeps the beginning of the full parse and ends it with a notice, exactly if there are more raw lines |
| DiffText.SplitOfJoin | ui/src/state/git-review.ts:225-225 | joining printed lines and splitting them again gives the lines back, each but the last without a final CR |
| DiffText.FileLinesHaveNoBreaks | server/typescript/domain/change-review.ts:121-130 | splitting a file leaves no line break inside a line |
| DiffText.NumberOfDecimal | ui/src/state/git-review.ts:234-239 | reading a printed line number gives the number |
| Utf8.DecodesWellFormed | server/workspace/workspace.go:1259-1294 | the rune decoder reaches the end without an error exactly on the texts of the UTF8-octets grammar in section 4 of RFC 3629 |
| Utf8.DecodesEncoded | server/workspace/workspace.go:1284-1291 | every character number, encoded by section 3 of RFC 3629, decodes to itself and its length, whatever stands behind it |
| Utf8.DecodedIsEncoded | server/workspace/workspace.go:1284-1291 | what decodes is a character number and stands there encoded |
| Utf8.DecodeStopsAtLineFeed | server/workspace/workspace.go:567-591 | a rune never reaches across a line feed, so decoding may restart behind one |
| Utf8.TallyOfLines | server/workspace/workspace.go:507-591 | rune and control counts and validity add up over lines |
| Utf8.ValidPrefixIsLongest | server/workspace/workspace.go:1296-1301 | the prefix kept of a cut text is well-formed and no longer prefix is |
| Utf8.IsSafeUtf8Text | server/workspace/workspace.go:1259-1294 | the loop decides safety: byte order mark skipped, no NUL, well-formed or cut inside a rune, at most 2 percent controls |
| Utf8.AsciiTextIsSafe | server/workspace/workspace.go:1259-1294 | an ASCII text is safe if and only if it has no NUL and fewer than three of a hundred bytes are control bytes |
| Utf8.WholeTextIsSafeAlike | server/workspace/workspace.go:1259-1294 | a content that ends between characters has the same verdict whether or not it may be cut |
| Utf8.CutTextIsSafeExactly | server/workspace/workspace.go:1267-1279 | of a content that was cut the longest well-formed beginning decides; without one it is refused |
| Utf8.BomIsLeftOut | server/workspace/workspace.go:1263-1263 | a byte order mark in front is left out and nothing else is |
| TextSearch.ScanTextSearchFile | server/workspace/workspace.go:507-565 | for every content and every buffer size the streaming scan says safe exactly when the whole content is safe text, and returns the first matching lines with their numbers |
| TextSearch.ScanLines | server/workspace/workspace.go:507-565 | every line read keeps what the pending bytes still owe to the count and to the matches |
| TextSearch.NextLine | server/workspace/workspace.go:512-530 | collecting full buffers yields exactly the bytes up to the next line feed or the end |
| TextSearch.LineReader.ReadSlice | server/workspace/workspace.go:513-513 | a read returns the bytes up to a line feed, a full buffer, or the rest of the file, and nothing is skipped |
| TextSearch.CountTextLine | server/workspace/workspace.go:567-591 | one line adds its share to the count of the whole content, or is found invalid |
| TextSearch.IndexTextLine | server/workspace/workspace.go:593-598 | the ASCII fast path and the general path give the same answer |
| TextSearch.IndexAsciiInsensitive | server/workspace/workspace.go:600-623 | the Horspool search returns the least offset of a match in the lowered line, or -1 |
| TextSearch.ShiftSkipsNoMatch | server/workspace/workspace.go:604-621 | no offset inside a shift is a match, and every shift is positive |
| TextSearch.FirstMatchMeans | server/workspace/workspace.go:600-623 | the answer is -1 exactly without a match; otherwise it is a match and none starts earlier |
| TextSearch.AllMatchesMean | server/workspace/workspace.go:537-555 | the matches are, for each line with a match, its number, its text without line feed and carriage return, the offset of its first match and the length of the query, and nothing else |
| TextSearch.MatchesAreInOrder | server/workspace/workspace.go:541-555 | they come in the order of the lines, at most one a line |
| TextSearch.LinesAreTheContent | server/workspace/workspace.go:514-531 | the lines put together are the content |
| TextSearch.LinesEndAtLineFeeds | server/workspace/workspace.go:514-531 | a line has a line feed at its end only, and only the last one can lack it |
| FileSearch.SearchFiles | server/workspace/workspace.go:382-421 | inserting, sorting and truncating file by file ends with the best `limit` (40 by default) of all files whose lower-cased path scores positively |
| FileSearch.RankingMeans | server/workspace/workspace.go:396-418 | in the ranking a larger score comes first and equal scores are in the order of the paths as they are; it holds exactly the files whose lower-cased path has a positive score |
| FileSearch.NoTermsRankAll | server/workspace/workspace.go:388-406 | without a term all files are listed, in the order of their paths |
| FileSearch.ScoreMeans | server/workspace/workspace.go:1303-1318 | one more term adds what it earns, or makes the score zero if it earns nothing |
| Ordering.StringLessMeans | server/workspace/workspace.go:401-406 | strings are ordered by their first difference |
| FileSearch.TermScoreMeans | server/workspace/workspace.go:1303-1318 | a term earns 100 minus the first offset at which it occurs; one that occurs nowhere earns 10 if it is scattered in the path and nothing otherwise |
| FileSearch.TakeInsert | server/workspace/workspace.go:405-416 | truncating before an insertion does not change what the truncated result is after it |
| FileSearch.FileSearchScore | server/workspace/workspace.go:1303-1318 | a file scores zero as soon as one term is missing, otherwise 100 minus the offset of each term found, and 10 for a term found scattered |
| FileSearch.IsScattered | server/workspace/workspace.go:1320-1331 | the greedy scan decides whether the needle is a subsequence, except that an empty haystack matches nothing |
| Paths.NormalizeRelativePath | server/workspace/workspace.go:1136-1162 | the stack loop computes the normalized path or the reason of its refusal |
| Paths.NormalizeAccepts | server/workspace/workspace.go:1136-1162 | a path is accepted if and only if it has no NUL, is not absolute and no prefix of it climbs above the root |
| Paths.NormalizeRefuses | server/workspace/workspace.go:1136-1162 | a refusal names its reason: a NUL first, then an absolute path, and climbing above the root only when that is so |
| Paths.NormalizedIsCanonical | server/workspace/workspace.go:1136-1162 | the result has no empty, `.` or `..` segment, no backslash and no NUL, and uses only slashes and characters of the trimmed input |
| Paths.IdempotentExactly | server/workspace/workspace.go:1136-1162 | normalizing again changes nothing if and only if the first segment of the input that no later `..` takes away does not start with white space and the last one does not end with it |
| Paths.NormalizedIsSurvivors | server/workspace/workspace.go:1136-1162 | the result is the segments of the input that no later `..` takes away, in order, joined by slashes |
| Paths.IdempotentIfTrimmed | server/workspace/workspace.go:1136-1162 | the step before: normalizing again changes nothing if and only if the result has no white space at its ends |
| Paths.NotIdempotent | server/workspace/workspace.go:1136-1162 | the input "./ a" normalizes to " a" and that to "a" |
| Paths.TrimFirstIsTheSame | server/typescript/domain/path-policy.ts:5-24 | for one set of white space, trimming before or after turning backslashes round gives the same path |
| Paths.BackslashIsSlash | server/workspace/workspace.go:1137-1137 | a backslash is a slash |
| PathGlob.MatchExcludePath | server/workspace/path_exclude.go:98-131 | the matcher that advances an offset in the string answers like the matcher on lists of segments |
| PathGlob.MatchesExactlyFits | server/typescript/domain/path-policy.ts:102-119 | the segment matcher accepts exactly the paths that can be cut so that `**` spans any number of whole segments and every other segment matches one |
| PathGlob.Matches | server/workspace/path_exclude.go:36-45 | an input is excluded exactly if it normalizes to a path that one of the patterns matches |
| PathGlob.EachPatternExcludes | server/workspace/path_exclude.go:34-57 | every pattern excludes for itself, a path in normal form by its segments; the root and what is no path are never excluded |
| PathGlob.MatchesCanonical | server/workspace/path_exclude.go:47-57 | any pattern may exclude a path made of names, the root is never excluded |
| PathGlob.ParseExcludePattern | server/workspace/path_exclude.go:59-96 | the loop over the segments yields the parsed pattern or the refusal |
| PathGlob.PatternTextMeans | server/workspace/path_exclude.go:59-96 | one part alone is matched at any depth, several are anchored at the root; `/` or `./` in front makes no difference, a slash behind adds everything below, empty and `.` parts are left out, `..` and syntax errors are refused |
| PathGlob.SteplessTextIsNoPattern | server/workspace/path_exclude.go:60-88 | a text of white space is left out, one of slashes and single dots only is refused |
| PathGlob.NameExcludesAnywhere | server/workspace/path_exclude.go:59-131 | the text of a name excludes exactly the paths whose last segment it matches |
| PathGlob.DirectoryExcludesBelow | server/workspace/path_exclude.go:59-131 | the text of a name with a slash behind excludes exactly the paths with a segment it matches |
| PathGlob.InnerSlashAnchors | server/workspace/path_exclude.go:59-131 | the text of names with slashes between them excludes exactly the paths that match them from the root on |
| PathGlob.NameMatchesLast | server/workspace/path_exclude.go:59-96 | a pattern without a slash matches by the last segment at any depth |
| PathGlob.DirectoryMatchesAny | server/workspace/path_exclude.go:59-96 | a directory pattern matches everything below a segment of that name |
| CommentBlocks.BlocksAreLaminar | server/typescript/domain/rendered-comment-blocks.ts:86-169 | in every text, each block ends no earlier than it starts and any two blocks are nested or apart, over closing tags, optional end tags, void tags and the end of the text |
| CommentBlocks.ClosedBlocksAreFinal | server/typescript/domain/rendered-comment-blocks.ts:86-169 | the tag that closes a block settles its line range; nothing that follows changes it |
| CommentBlocks.ClosingTagEndsTheInnermost | server/typescript/domain/rendered-comment-blocks.ts:218-229 | a closing tag ends the innermost open element of its name and everything inside it at its own line and leaves the rest open |
| CommentBlocks.UnmatchedClosingTagEndsNothing | server/typescript/domain/rendered-comment-blocks.ts:218-229 | a closing tag without an open element of its name changes neither stack nor blocks |
| CommentBlocks.TagSetsModes | server/typescript/domain/rendered-comment-blocks.ts:122-160 | every tag leaves the template depth and the raw-text mode as stated, whatever it closes |
| CommentBlocks.EndOfTextEndsTheRest | server/typescript/domain/rendered-comment-blocks.ts:163-169 | what is open at the end of the text ends at its last line, everything else keeps its end |
| CommentBlocks.AutoCloseKeepsNested | server/typescript/domain/rendered-comment-blocks.ts:231-269 | closing paragraphs, list items and table rows implicitly keeps the nesting |
| CommentBlocks.OpeningTagCuts | server/typescript/domain/rendered-comment-blocks.ts:122-160 | an opening `li` or `tr` ends its predecessor in the same list or table with everything inside, else a block or container tag ends a paragraph on top of the stack, at the line before the tag; nothing else ends; the block it opens and the element it pushes are given |
| CommentBlocks.LineCountsBreaks | server/typescript/domain/rendered-comment-blocks.ts:301-312 | the line of an offset is one more than the number of line breaks in front of it |
| CommentBlocks.TagKeepsNested | server/typescript/domain/rendered-comment-blocks.ts:122-160 | every tag keeps the nesting invariant of the scanner |
| CommentBlocks.BlocksOpenInOrder | server/typescript/domain/rendered-comment-blocks.ts:137-154 | opening tags are spans from `<` to `>` in the text, disjoint and increasing |
| CommentBlocks.AnnotateBlocks | server/typescript/domain/rendered-comment-blocks.ts:65-84 | splicing from the last tag to the first equals one forward pass that copies everything else, for any annotation of a tag |
| CommentBlockParsers.LineCounter.At | server/typescript/domain/rendered-comment-blocks.ts:301-312 | the counter answers for the furthest offset asked so far and never goes back |
| CommentBlockParsers.ParseRenderedCommentBlocks | server/typescript/domain/rendered-comment-blocks.ts:86-169 | the parser with the counter, which updates block objects through a stack, returns the blocks of the specification |
| CommentBlockParsers.ParseRenderedCommentBlocksRecounting | ui/src/domain/rendered-comment-blocks.ts:95-177 | the parser that recounts the lines returns the same blocks |
| CommentBlockParsers.PopFrom | server/typescript/domain/rendered-comment-blocks.ts:225-228 | popping ends the blocks of all popped elements, and of no others |
| CommentBlockParsers.ReadOpeningTag | server/typescript/domain/rendered-comment-blocks.ts:128-158 | an opening tag asks the counter for the line before it and then for its own line, never backwards |
| CommentBlockParsers.LineNumberAt | ui/src/domain/rendered-comment-blocks.ts:309-311 | counting the breaks before an offset gives the line of the specification |
| CommentBlockParsers.AddRenderedCommentBlockIds | server/typescript/domain/rendered-comment-blocks.ts:65-84 | the annotated text is the forward rewrite of the parsed blocks |
| HtmlTokens.TagEndMeans | server/typescript/domain/rendered-comment-blocks.ts:171-186 | a tag ends at its first `>` at which no quote is open |
| HtmlTokens.FindTagEnd | server/typescript/domain/rendered-comment-blocks.ts:171-186 | the loop with the quote state finds that end |
| HtmlTokens.WrittenTagIsRead | server/typescript/domain/rendered-comment-blocks.ts:113-123 | a tag written with white space, an optional slash and a name is read with that name in lower case |
| Sequences.LowerAsciiMeans | server/typescript/domain/rendered-comment-blocks.ts:123-123 | the capital letters become the small ones and nothing else changes |
| HtmlTokens.TagIsFound | server/typescript/domain/rendered-comment-blocks.ts:103-155 | the first `<` starts a tag that goes on to the first `>` outside quotes; what is there is read, and the tag closes itself if and only if a slash is the last thing before its end |
| HtmlTokens.CommentIsSkipped | server/typescript/domain/rendered-comment-blocks.ts:106-111 | a comment is skipped up to its first end mark, or to the end of the text |
| HtmlTokens.RawTextHasNoTags | server/typescript/domain/rendered-comment-blocks.ts:97-101 | in raw text no tag is read before the first closing mark with the name of the element |
| CommentBlockParsers.ReadToken | server/typescript/domain/rendered-comment-blocks.ts:96-120 | raw text, comments and malformed tags are skipped as the specification says |
| CommentModel.ThreadsSplitTheComments | server/comments/comments.go:581-605 | the comments of a thread are exactly those with its id, in file order |
| CommentModel.CommentsAreInTheirThreads | server/comments/comments.go:584-605 | a comment is in the thread it names or, without one, in the thread of its own id |
| CommentModel.ThreadIdsAreDistinct | server/comments/comments.go:581-605 | no thread is projected twice |
| CommentModel.StatusIsLastSet | server/comments/comments.go:617-648 | a thread has the status of the last event that sets it |
| CommentModel.StatusOfComments | server/comments/comments.go:590-611 | without such an event it is open if one of its comments is, else resolved if one is, else archived |
| CommentStore.ProjectThreads | server/comments/comments.go:581-666 | the loops over comments and events return the threads and leave every comment with its thread id and the status of its thread |
| CommentStore.Store.ReadAll | server/comments/comments.go:934-969 | reading leaves out the comments with a tombstone and keeps the order of the others |
| CommentStore.Store.List | server/comments/comments.go:66-101 | a listing shows the comments that are not deleted, with the status of their threads, filtered by path, status and review batch |
| CommentStore.Store.ListThreads | server/comments/comments.go:103-138 | a thread listing for a status and an actor leaves out the threads of other statuses and those that the actor has seen |
| CommentStore.ListingLeavesOutTheSeen | server/comments/comments.go:125-133 | a listing has the threads of the status asked for and leaves out exactly those that the actor asked for has seen |
| CommentStore.ListingMeans | server/comments/comments.go:90-98 | a listing has exactly the comments of the path, the status and the review batch asked for |
| CommentStore.Store.Create | server/comments/comments.go:140-196 | a comment is validated, recognized or appended, with one event |
| CommentStore.Store.CreateDraft | server/comments/comments.go:215-232 | one draft is appended with the new id and the trimmed path and body; a blank path or body is refused; comments, events and the other drafts stay |
| CommentStore.Store.UpdateDraft | server/comments/comments.go:234-259 | the first draft of that id gets the trimmed body and the time, errors change nothing |
| CommentStore.Store.DeleteDraft | server/comments/comments.go:261-284 | all drafts of that id are gone, the others keep their order |
| CommentStore.Store.DeletePublished | server/comments/comments.go:287-321 | a human comment gets one tombstone; a tombstone on record is returned |
| CommentStore.Store.Update | server/comments/comments.go:432-461 | the first listed comment of that id is edited, with an event if the body changes |
| CommentStore.Store.AppendThreadReadActivity | server/comments/comments.go:463-524 | a read is recorded unless the same read of the same actor is on record |
| CommentStore.Store.PublishDrafts | server/comments/comments.go:323-430 | the loops over drafts, groups and events leave the files of the specification; an error leaves all files unchanged |
| StoreRuns.JournalOnlyGrows | server/comments/comments.go:843-861 | over every run the journal is only appended to |
| StoreRuns.DeletedNeverReturns | server/comments/comments.go:934-969 | once deleted, a comment is in no listing and in no thread after any run, even if another process overwrites the comment file with anything |
| StoreRuns.DeletingAgainIsTheSame | server/comments/comments.go:287-321 | deleting again after any run returns what the first deletion returned and changes nothing |
| StoreRuns.DraftsStayPrivate | server/comments/comments.go:198-284 | comments and events after a step depend on no draft but those the step publishes |
| StoreRuns.UnpublishedDraftsDoNotShow | server/comments/comments.go:198-284 | over every run that publishes none of a set of drafts, whatever else it creates, edits, deletes, reads and publishes, the comments, the events and the other drafts are the same as without these drafts |
| StoreRuns.StepIgnoresHidden | server/comments/comments.go:198-461 | one operation that publishes none of the hidden drafts leaves the same comments, events and other drafts with and without them |
| StoreRuns.CreatingAgainIsTheSame | server/comments/comments.go:140-196 | a request repeated with its client event id is recognized and changes nothing if and only if its thread id is not blank |
| StoreRuns.BlankThreadIdCreatesTwice | server/comments/comments.go:140-196 | a concrete request with the thread id " " and a client event id: sent twice it makes two comments |
| StoreRuns.ListedAfterCreate | server/comments/comments.go:140-196 | a created comment is listed behind all earlier ones |
| StoreRuns.CreatedCommentIs | server/comments/comments.go:140-196 | creating succeeds exactly for a path and a body that are not blank and no status but "open"; the new comment has the trimmed path and body and all else of the request, in the named thread or its own, with one event |
| StoreRuns.EditedCommentIs | server/comments/comments.go:432-461 | editing succeeds exactly without a status and for the id of a listed comment; the first one gets the trimmed body and the time and keeps the rest, the others are unchanged |
| StoreRuns.DeletedCommentIs | server/comments/comments.go:287-321 | deleting succeeds exactly for a comment with a tombstone or a listed one of a person, and appends one tombstone with its thread and path |
| StoreRuns.RecognizedMeans | server/comments/comments.go:165-176 | a request is recognized if and only if a comment that the actor added to the thread with the same client id is still listed |
| StoreRuns.CreatedDraftIs | server/comments/comments.go:215-232 | creating a draft succeeds exactly for a path and a body that are not blank and adds it, trimmed, behind the others |
| StoreRuns.UpdatedDraftIs | server/comments/comments.go:234-259 | editing a draft succeeds exactly for the id of a draft and a body that is not blank and changes that draft only |
| StoreRuns.DeletedDraftIs | server/comments/comments.go:261-284 | deleting leaves exactly the drafts of other ids, in order |
| PublishDrafts.PublishConserves | server/comments/comments.go:323-430 | old comments stay in front, each selected draft becomes one comment in order with one event, the other drafts remain, an error changes nothing |
| PublishDrafts.SelectionSplitsDrafts | server/comments/comments.go:723-741 | selected and remaining drafts are together the drafts; the selected ones are those of the ids given, or all if none is given |
| PublishDrafts.PublishedIs | server/comments/comments.go:357-398 | comment `i` of the batch is draft `i` in the thread where it was placed |
| PublishDrafts.PlanAccepts | server/comments/comments.go:357-398 | a batch can be published if and only if each draft is valid and names an open thread, a draft of the batch, or nothing |
| PublishDrafts.PlanTellsWhatIsMissing | server/comments/comments.go:388-391 | a draft that could be placed is refused for a blank path, else for a blank body |
| PublishDrafts.TargetMeans | server/comments/comments.go:770-780 | the target of `draft-thread:id:...` is what stands between the mark and the next colon |
| PublishDrafts.PublishedByItsAuthor | server/comments/comments.go:782-790 | a comment is by the author of its draft, else by whoever publishes, else by the actor that the source names |
| PublishDrafts.PublicationShows | server/comments/comments.go:419-429 | the threads returned are those with a comment of the batch |
| PublishDrafts.BatchEventsMean | server/comments/comments.go:399-412 | event `i` creates the thread of comment `i` exactly if the batch creates it and no earlier comment is in it |
| PublishDrafts.ThreadsAreCreatedOnce | server/comments/comments.go:399-412 | of two comments in one thread only the first can create it |
| PublishDrafts.CreatedThreadsAreUsed | server/comments/comments.go:755-764 | every thread that the batch creates gets a comment, so it gets its event |
| PublishDrafts.DraftThreadsAreShared | server/comments/comments.go:357-387 | a draft for the thread of an unthreaded draft of the batch lands in the same thread, whichever comes first |
| PublishDrafts.PlacesMakeThreads | server/comments/comments.go:357-387 | two drafts without a thread, for which no earlier draft asks, are published in one thread if and only if they have the same path and the same anchor |
| PublishDrafts.WhereDraftsLand | server/comments/comments.go:357-387 | a draft that names an existing thread lands where it says and that thread is open; any other draft lands in a created thread |
| PublishDrafts.PublishedThreadIsKnown | server/comments/comments.go:357-398 | a published comment is in an open existing thread or a created one if and only if its draft does not spell an existing thread with white space around the name |
| PublishDrafts.PaddedThreadNameIsLost | server/comments/comments.go:357-398 | a concrete batch whose comment lands in the thread " t" that nobody created |
| CommentStore.PlaceDrafts | server/comments/comments.go:357-398 | the loop over the selected drafts computes the plan or its first error |
| CommentStore.Place | server/comments/comments.go:357-387 | one draft is placed by the group maps as the specification says |
| CommentStore.CollectEvents | server/comments/comments.go:399-412 | the event loop, which clears the created mark, appends one event a comment |
| ReadReceipts.SeenProtocol | server/comments/read_receipts.go:78-116 | over runs: a passive read makes a thread with feedback seen, also when deduplicated; a seen thread stays seen through exactly the steps that neither bring it feedback nor delete its last feedback, both told by the operation and the files before it; new feedback makes it unseen; one passive receipt a revision |
| ReadReceipts.SeenStaysSeen | server/comments/read_receipts.go:78-116 | what an actor has seen behind one step of a run is seen behind any later one, if no step in between brings feedback or deletes the last one |
| ReadReceipts.SeenIsLostExactly | server/comments/read_receipts.go:78-116 | for one operation: seen is kept if and only if the operation neither brings human feedback to the thread nor deletes its last one |
| ReadReceipts.SeenAfterDeletion | server/comments/comments.go:287-321 | behind a deletion a seen thread is still seen if and only if human feedback is left in another comment of the thread |
| ReadReceipts.DeletionMakesUnseen | server/comments/comments.go:287-321 | a concrete thread with a comment of a person and one of an agent: read, then without the comment of the person, it is listed and unseen |
| ReadReceipts.PassiveReadIsSeen | server/comments/comments.go:484-518 | after a passive read the actor has seen the thread whether the receipt was appended or found |
| ReadReceipts.SeenIsLostWith | server/comments/read_receipts.go:78-116 | behind any step but an overwrite, a seen thread is seen if and only if feedback is left and none has the time of the step |
| ReadReceipts.NewFeedbackIsUnseen | server/comments/read_receipts.go:78-116 | feedback at the time of a step makes the thread unseen for every actor |
| ReadReceipts.OnlyCommentsBringFeedback | server/comments/comments.go:140-461 | a step brings feedback if and only if it creates, edits or publishes a comment of a person in the thread, as told by the operation and the files before it |
| ReadReceipts.HumanCommentsBringFeedback | server/comments/comments.go:140-196 | creating brings feedback if and only if the request is valid, was not answered before, comes from a person and names the thread or starts it |
| ReadReceipts.HumanEditsBringFeedback | server/comments/comments.go:432-461 | editing brings feedback if and only if the first listed comment of that id is a person's, in the thread, even without a new body |
| ReadReceipts.HumanDraftsBringFeedback | server/comments/comments.go:323-430 | publishing brings feedback if and only if all selected drafts can be placed and one of a person is placed in the thread |
| ReadReceipts.FeedbackIsWhereNamed | server/comments/comments.go:357-387 | for a thread that exists this means that all selected drafts can be placed and one of a person names exactly this thread |
| ReadReceipts.StepKeepsOneReceiptEach | server/comments/comments.go:484-518 | no step gives an actor a second passive receipt for a revision |
| ReadReceipts.RetriedReadIsRecognized | server/comments/comments.go:484-518 | a read retried with the client's own id is recognized if and only if the id has no white space around it |
| ReadReceipts.PaddedReadIsRecordedTwice | server/comments/comments.go:484-518 | a concrete read with the client id " k": sent twice it leaves two receipts |
| ReadReceipts.RunKeeps | server/comments/comments.go:463-524 | over every run, overwrites by earlier versions included, times stay in order, receipts stay unique and recorded ids stay trimmed |
| ReadReceipts.IsThreadSeenBy | server/comments/read_receipts.go:78-116 | the two loops decide whether a read of the actor is no older than the latest human feedback |
| ReadReceipts.SeenMeans | server/comments/read_receipts.go:80-116 | seen means that the thread has dated human feedback and one read of the actor is no older than any of it |
| ReadReceipts.ReadIsRecorded | server/comments/comments.go:463-524 | a read succeeds exactly for a thread with a listed comment and a known actor; the receipt on record for the revision or the id is returned, else one is appended |
| ReadReceipts.RevisionMeans | server/comments/comments.go:488-501 | two passive reads are for the same revision if and only if ids, times and bodies of the human comments are the same |
| ReadReceipts.LatestHumanIsLatest | server/comments/read_receipts.go:79-98 | the loop's latest time is the latest of the human comments of the thread |
| WatchTree.ClientsMirrorTheWatcher | server/workspace_watcher.go:159-335 | after any reports and rescans a client that follows the events has exactly the watcher's paths; no add of a present path, no unlink of an absent one |
| WatchTree.SubtreeScanSuffices | server/workspace_watcher.go:238-268 | rescanning a subtree gives the map and the events of a full rescan when nothing outside it differs |
| WatchTree.DiffTells | server/workspace_watcher.go:309-335 | an event is published exactly if it is true: new path, gone path, or file with another size or time |
| WatchTree.DiffIsOrdered | server/workspace_watcher.go:309-335 | what is there is told before what is gone, each in the order of the paths and no path twice |
| WatchTree.DiffLeads | server/workspace_watcher.go:309-335 | the events of a difference lead from the former paths to the present ones |
| WatchTree.ReportLeads | server/workspace_watcher.go:159-205 | every report of the platform keeps clients in step |
| WatchTree.SubtreeMeans | server/workspace_watcher.go:434-467 | a subtree is its root and the paths that lead on from there, that of the root directory the root alone |
| WatchTree.WrittenFileIsTaken | server/workspace_watcher.go:159-205 | a written file is in the picture with the size and time found; it is told as added exactly if it was absent and as changed exactly if a known one had another size or time |
| WatchTree.BelowWrittenFile | server/workspace_watcher.go:159-205 | where a file was written all other paths keep their entries, but for what the same report removes |
| WatchTree.RemovedPathIsGone | server/workspace_watcher.go:285-307 | a report that finds nothing leaves exactly what it does not remove: the known path and what is below it |
| WatchTree.RemovalIsTold | server/workspace_watcher.go:285-307 | an unlink is told exactly for what the report removes, with its kind |
| WatchTree.ScannedDirectoryIsTaken | server/workspace_watcher.go:238-268 | below a directory that was scanned the picture is what the scan found |
| WatchTree.OthersKeepTheirEntries | server/workspace_watcher.go:159-205 | a path outside the subtree of the report keeps its entry |
| WatchTree.UnreadReportsChangeNothing | server/workspace_watcher.go:160-171 | a report about permissions only, or not about a path below the root, changes and tells nothing |
| WorkspaceWatcher.Watcher.HandlePlatformWatchEvent | server/workspace_watcher.go:159-205 | removal first, then what was written; map, published events and their count are those of the specification |
| WorkspaceWatcher.Watcher.ReconcileAll | server/workspace_watcher.go:207-236 | a rescan replaces the map and publishes the difference; a failed scan changes nothing |
| WorkspaceWatcher.Watcher.ReconcileWatchSubtree | server/workspace_watcher.go:238-268 | the subtree is replaced and its difference published |
| WorkspaceWatcher.Watcher.UpsertWatchEntry | server/workspace_watcher.go:270-283 | a new entry is added, a changed file is told, anything else is ignored |
| WorkspaceWatcher.Watcher.RemoveWatchPath | server/workspace_watcher.go:285-307 | a known path and everything below it is deleted while walking the sorted paths |
| WorkspaceWatcher.Watcher.PublishWatchDiff | server/workspace_watcher.go:309-335 | present paths in sorted order, then former ones |
| WorkspaceWatcher.SortedWatchPaths | server/workspace_watcher.go:456-463 | the sorted list of the keys, whatever the iteration order of the map |
| EventServices.EventService.Publish | server/application/services.go:233-244 | the next version, the journal grows by one, and every queue with room gets the event |
| EventServices.EventService.Subscribe | server/application/services.go:219-232 | a new subscriber has an empty queue |
| EventServices.EventService.Unsubscribe | server/application/services.go:224-231 | the queue gets nothing more and keeps what it has |
| EventServices.SubscribersSeeIncreasingVersions | server/application/services.go:216-244 | what a subscriber gets is part of the journal with strictly increasing versions |
| EventServices.NoGapMeansNothingMissed | server/application/services.go:233-244 | a subscriber whose versions follow each other missed nothing in between |
| RenameChains.CollapseRenameChains | ui/src/state/review-events.ts:141-193 | for distinct sources and distinct targets: one result for each maximal chain and each cycle, every pair in exactly one of them; both walks end for all inputs |
| RenameChains.CollapseIsComplete | ui/src/state/review-events.ts:141-193 | such a result contains every maximal chain, and every cycle up to its start |
| RenameChains.MaximalChainsAreEqual | ui/src/state/review-events.ts:146-162 | maximal chains with a common pair are equal |
| RenameChains.WalkBack | ui/src/state/review-events.ts:148-155 | the backward walk from a last pair finds the whole chain and its inner paths in order |
| RenameChains.WalkForward | ui/src/state/review-events.ts:165-177 | the forward walk returns to its start around a cycle, or ends where nothing follows |
| RenameChains.SummarizeCycle | ui/src/state/review-events.ts:179-189 | a cycle shows the target of its latest rename and the other paths in order |
| RenameChains.ChainShows | ui/src/state/review-events.ts:146-162 | a chain is shown from its first to its last path, neither of which is renamed further, with the paths in between in order |
| RenameChains.CycleShows | ui/src/state/review-events.ts:175-189 | a cycle is shown at the target of its latest rename, with all its other paths in order |
| RenameChains.LatestMeans | ui/src/state/review-events.ts:180-182 | the first of the latest renames is chosen |
| RenameDetection.DetectRenamePairs | ui/src/state/review-events.ts:114-139 | each addition is matched with its first free look-alike removal, and the pairs are collapsed |
| RenameDetection.MatchRemovals | ui/src/state/review-events.ts:121-136 | the loops compute that matching and its pairs |
| RenameDetection.MatchesAreOneToOne | ui/src/state/review-events.ts:121-130 | no removal is used twice |
| RenameDetection.PairHasOrigin | ui/src/state/review-events.ts:121-136 | every detected pair comes from an addition and a removal that look alike |
| RenameDetection.DetectedPairMeans | ui/src/state/review-events.ts:115-136 | a detected pair leads from a file removed to a file added, at the later time, and is a rename within one directory |
| RenameDetection.LooksLikeRenameMeans | ui/src/state/review-events.ts:219-238 | two events look like a rename if and only if their paths are different names in one directory with one extension, at most 2000 ms apart |
| RenameDetection.DetectedEndsAreDistinct | ui/src/state/review-events.ts:114-139 | additions and removals of distinct paths give pairs with distinct ends |
| ActivityCache.CacheKeepsReceipts | ui/src/state/comment-activity.ts:42-64 | after any sequence of events a thread has at most 24 of them and its review receipt is that of the full history |
| ActivityCache.CacheMirrorsHistory | ui/src/state/comment-activity.ts:42-64 | the cache knows the latest agent read of every thread, also when old events come in again |
| ActivityCache.CacheIsRetention | ui/src/state/comment-activity.ts:42-64 | for events of distinct ids the list cached of a thread, retained as events come in, is what retention keeps of all of them at once |
| ActivityCache.ShortThreadIsCachedWhole | ui/src/state/comment-activity.ts:42-64 | a thread with no more than 24 events is cached whole, newest first |
| ActivityCache.AddKeepsMirror | ui/src/state/comment-activity.ts:51-64 | one more event keeps that, whether it is new, known, or forgotten and back |
| ActivityCache.RetentionKeepsTheLatestRead | ui/src/state/comment-activity.ts:231-248 | retention never drops the latest agent read |
| ActivityCache.RetentionKeepsTheNewest | ui/src/state/comment-activity.ts:231-248 | what is dropped is no newer than what is kept, the latest agent read aside; 24 events or all of them are kept, newest first |
| ActivityCache.ReceiptMeans | ui/src/state/comment-activity.ts:113-141 | the receipt says seen exactly when an agent read is no older than the thread and all its human feedback, and then names the actor of a latest one |
| ActivityCache.SortMeans | ui/src/state/comment-activity.ts:231-236 | the sort orders by descending time and keeps every event |
| ActivityCache.SortIsStable | ui/src/state/comment-activity.ts:231-236 | events of the same time keep their order |
| SafeText.TopLevelSafeExternalText | cli/top_level_agent_cli.go:311-342 | the loop over the runes writes the printed form |
| SafeText.SafeTextDecodes | cli/top_level_agent_cli.go:311-342 | a decoder for the escapes recovers every text |
| SafeText.SafeTextIsHarmless | cli/top_level_agent_cli.go:311-342 | the output has no character of category C and no line or paragraph separator |
| SafeText.PlainTextStays | cli/top_level_agent_cli.go:311-342 | a text is printed as it is if and only if it has no backslash, no separator and no character of category C |
| SafeText.EscapesAreShort | cli/top_level_agent_cli.go:311-342 | every escape has two characters, or is u or U with four or eight upper-case digits |
| SafeText.PlainTextIsQuotedAsItIs | cli/top_level_agent_cli.go:307-309 | a text is quoted as it is if and only if it is printable and has no quote and no backslash |
| SafeText.TopLevelQuotedDecodes | cli/top_level_agent_cli.go:307-309 | undoing the quoting and then the escapes recovers the text |
| SafeText.DistinctTextsPrintDifferently | cli/top_level_agent_cli.go:307-342 | distinct texts print and quote differently |

## Left out

- DiffText.ReviewShowsBothFiles: the path in the header has no line feed; added and deleted files of their own and other
  fields of the diff response are not modelled.
- TextSearch.ScanTextSearchFile: lower-casing beyond ASCII is a given function that agrees with ASCII lower case on ASCII lines;
  counters are unbounded where the code has 64 bits; read errors end the scan and are not modelled.
- FileSearch.SearchFiles: the library sort is any method that sorts; walking the workspace is not modelled, the paths and the
  terms are given; lower-casing is ASCII, and an offset counts characters where the code counts bytes.
- FileSearch.IsScattered: works on characters where the code compares the low byte of each rune with a byte of the needle.
- Paths.NormalizeRelativePath: white space is Go's set, which trims U+0085 and not the byte order mark.
- Paths.TrimFirstIsTheSame: the TypeScript version trims the byte order mark and not U+0085, so that the two implementations can
  differ on inputs with one of these at an end.
- PathGlob.MatchExcludePath: matching one segment is a given predicate, and so is the check that a segment is a valid glob.
- CommentBlocks.BlocksAreLaminar: the white space of tags is the ASCII set, and lower-casing is ASCII, so that it keeps offsets.
- CommentBlocks.AnnotateBlocks: what an annotation does inside a tag is any function of the tag and the block; the block id is the
  block's number in the list.
- CommentBlockParsers.ParseRenderedCommentBlocksRecounting: the Go copy of the parser differs from the browser's copy only in
  ending the loop at a comment without an end instead of moving to the end of the text, in finding peer and container in one
  pass, and in a class of white space that lacks the vertical tab; it is not repeated.
- StoreRuns.DeletedNeverReturns: lines that are not JSON, failures to write, and a process that rewrites the journal are not
  modelled; the lock is the order of the steps.
- CommentStore.Store.Create: the reading of raw JSON maps is left out; actors are normalized values, an absent source is given
  as "unknown", file hashes, viewer kinds and author names are not kept.
- CommentStore.Store.ListThreads: the filters by path and review batch of a thread are left out, as these fields of threads are.
- CommentStore.ProjectThreads: times, paths, anchors and review batches of threads are left out; legacy comments matter through
  their missing thread ids and their statuses.
- PublishDrafts.PublishConserves: the key of a group by place is a value of path and anchor, which takes the JSON text of the two
  to be injective and different from keys of drafts; new ids are drawn from two supplies, which the lemmas about threads take to
  be fresh and all different.
- PublishDrafts.PublishConserves: the fallback actor of a draft without actor and author is named by its source only.
- ReadReceipts.SeenIsLostExactly: that a step loses seen takes new comments not to have the id of a deleted one.
- ReadReceipts.SeenProtocol: times are integers that grow with every operation; the hash of the revision is taken to be injective,
  and a client's own id to differ from every hash; steps in which another process overwrites the comment file are part of the runs,
  but whether a thread is seen is stated for the steps of the store.
- RecentReadReceipts, ListActivities and export of threads as text: they select from what is modelled.
- WatchTree.ClientsMirrorTheWatcher: a path keeps its kind; the set of directories that the platform watches is left out.
- WorkspaceWatcher.Watcher.HandlePlatformWatchEvent: what is found at the path, and the scan below it, are part of the report;
  timers, telemetry and the search index are left out.
- EventServices.EventService.Publish: a channel is a queue object; closing it only marks it.
- RenameChains.CollapseRenameChains: the order of the results is left out; nothing is stated about the result for pairs that share a
  source or a target, except that both walks end.
- RenameDetection.DetectRenamePairs: the summary of paths by event type is left out.
- ActivityCache.CacheKeepsReceipts: texts of labels are left out; an actor is shown by a given name.
- SafeText.TopLevelSafeExternalText: Unicode category C and the language's printable test are given predicates; invalid UTF-8 is
  not part of the texts.
- File, process and network access, GraphQL, the browser, markdown and preview rendering, themes, shortcuts and navigation.
