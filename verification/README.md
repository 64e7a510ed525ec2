# Praelector, modelled and proved in Dafny

Praelector turns an ebook into an audiobook. This project models the hard logic of its engine and of the
shell's engine supervisor, and proves what that logic is for. Every module names the file it models.

* **The chapter store** (`Versions`, `Ordinals`, `BookTables`, `ChapterEdits`, `SplitEdit`, `TextEdit`,
  `ReplaceProofs`, `IngestEdit`, `ChapterStore`, `ChapterRuns`, with `Plain` and `PlainText`). Blocks are rows with
  a validity interval of revisions; merge, split, reorder, text commit, replace and apply-reading rewrite them.
  `Tables` holds the two database tables and writes them row by row under the UNIQUE ordinal and the primary key;
  `ChapterStore` runs each edit as one session that commits or rolls back. The ghost fields say what the tables
  stand for: the order of the chapters, the removed ones, and the block lists at every revision so far.
* **From text to plan** (`Apply`, `Substitution`, `ApplyProofs`, `ApplySpans`, `Planner`, `Speech`, `Runs`, `Said`,
  `Segment`, `SegmentProofs`, `Chunker`, `ChunkerProofs`, `ClauseProofs`, `Plan`, `BookPlan`, `Dialogue`,
  `DialogueProofs`). Loops are methods proved against functions, and the theorems are about the functions.
* **The reader export** (`ReaderExport`, `ReaderExportProofs`, `ReaderMarks`, `ReaderCounts`).
* **Jobs and chunks on disk** (`JobStates`, `Checkpoint`, `Jobs`, `Chunks`, `FakeRun`). Files are maps and lists, a
  rename is one step, and the process may die before, between and after the writes, also inside recovery.
* **Admission** (`Gpu`) and **the supervisor** (`Ready`, `ReadyLines`, `Supervisor`).

`PyText`, `Sorting` and `Options` hold the few operations the passes rely on.

## What the proofs found

* `apply_block` raises `ValueError` on a batch that deletes exactly the text another suggestion quotes. The exact
  condition is `ApplyProofs.ApplyBlockRaises`; a concrete batch is `ApplyProofs.DeletionUnderReadingRaises`.
* The temporary ordinals are said to be far below the tombstones (`engine/src/praelector/store/chapters.py:50-53`).
  With 1,000,000 removed chapters they are not, and a merge that is not at the end already fails with 999,999.
  The exact conditions are in the contracts of `WriteOrdinals`, `Merge`, `Split` and `Reorder`; a failed edit
  changes nothing.
* The editor's text of a chapter does not always split back into its blocks: a split inside a block can leave a
  block with a space at its end, and then a commit of unchanged text makes a new revision. The exact conditions
  are `PlainText.EditorRoundTrip` and, for a split, `ChapterRuns.SplitRoundTripsExactly`; a block is
  `ChapterRuns.SplitBreaksRoundTrip`.
* A split can give the new chapter an empty title: exactly when it divides a heading before nothing but white
  space and the chapter has a title (`SplitEdit.EmptyTitleExactly`, and `SplitEdit.SplitLosesTitle` for a heading).
* A pause at offset 0 of a block, or at an offset that an earlier structural span reaches, is never heard
  (`Planner.PauseSurvives`, an if-and-only-if, and `Planner.PausesThatAreLost`).
* A dash of kind `trailing` cannot occur, so its branch in `_state_after` is dead (`Dialogue.NoTrailingDash`).
* The job routes load `job.json` without recovery and apply an event to it. After a death between the two writes
  that repeats a sequence number: `Checkpoint.RunsAreSafe` is the if-and-only-if over whole runs, and
  `Checkpoint.DeathAndRouteRepeatSeq` a run. Ended jobs and the one active job of a project are safe all the same.
* A comment says that bytes already read are never lost when `select!` drops a read
  (`apps/desktop/src/engine/ready.rs:214-217`). But `read_line` of tokio takes the buffer into its future and is
  documented as not cancellation safe: when a read of stderr returns while a line of stdout is half read, that half
  is lost. Then the handshake can miss an announcement (`Ready.HalfLineIsLost`) or see one in a line that is none
  (`Ready.HalfLineMayAnnounce`). Stdout is read whole exactly when that does not happen (`Ready.ReadWholeExactly`).
* A comment says that stderr never carries the ready line and is only buffered. In fact a stderr line that looks
  like a broken announcement aborts the handshake, also when stdout has already announced
  (`Ready.BrokenErrLineAborts`, `Ready.LateBrokenErrLineAborts`). `Ready.ArrivalMattersExactly` says exactly when the
  pieces matter.
* `dispatch` checks one sample for one more worker and may then start several with it
  (`Gpu.SampleIsNotProtected`); `Gpu.SampleIsProtectedExactly` says exactly when they fit. What is always protected
  is the memory the budget was computed from (`Gpu.ReserveIsProtected`).
* A pause that stands where a stretch of dialogue, a pronunciation or a skip ends is printed inside it and again
  behind it (`ReaderCounts.PausePrintedTwice`). `ReaderCounts.MarksAreCounted` gives the number of marks for every
  nested family, and `ReaderCounts.PrintedOnceExactly` says when each is printed once.
* The stage that is shown of a job goes back from muxing to synthesis when muxing is stopped or fails, and only
  then (`JobStates.StageGoesBackExactly`).
* The reader export turns CR into LF and drops the characters XML forbids, so it preserves the text exactly when
  there are none (`ReaderExportProofs.PrintPreserved`).

## Reading the contracts

Inputs that the model cannot see are parameters: the similarity of two texts, the capitals and abbreviations of a
language, the verbs of saying, the voice slot of a speaker, the JSON parser, the probe of a sound file, the fake
voice, clocks, new ids (minted by a counter), the order in which a flush writes its rows, and where a process dies.
`CleanBatch` and `Sound` say that the rewrites of a batch are disjoint and that its suggestions quote the block;
`CleanOverlays` that pronunciations and skips are not empty, lie in the block and do not overlap, and `NestedFamily`
that the marked spans of a block stand apart or one inside the other; `KeepsProtocol` is what the segmenter
interface promises and what `Segment.SentencesSegmented` proves of the default one; `ProperPauses` and `ProperSpan`
are the checks of the span table; `Orderly` says that nothing arrives on a stream after its end (an arrival is what
one poll of a reader hands over); `ClockRises` that a monotonic clock does not go back; `Audible` that a rendered
file is not empty.
`TEMP_ORDINAL` and `Buried` carry the bound on removed chapters.

## Model

| member | source | states |
|---|---|---|
| ChapterRuns.HistoryIsImmutable | engine/src/praelector/store/chapters.py:787-815 | after any run, the rows (id, chapter, ordinal, kind, level, text, source) visible at an earlier revision are the same set as before |
| ChapterRuns.Run | engine/src/praelector/store/chapters.py:230-577 | any list of ingest, merge, split, reorder, text commit, replace and apply-reading keeps the whole store invariant; from the first edit on no revision is ever lost and the removed chapters keep their order |
| ChapterRuns.RunFromScratch | engine/src/praelector/store/chapters.py:137-577 | every store that commands reach from an empty project is valid |
| ChapterRuns.EveryRevisionIsOrderly | engine/src/praelector/store/chapters.py:728-735 | at every past revision an id has at most one row, and each chapter's rows are numbered 0, 1, ... without gap or repeat |
| ChapterRuns.IntervalsAreDisjoint | engine/src/praelector/store/chapters.py:787-815 | two rows of one block have non-empty validity intervals that do not overlap, and at most one is open |
| ChapterRuns.UnchangedTextIsNoCommit | engine/src/praelector/store/chapters.py:455-468 | the editor's own text splits back into the chapter's blocks exactly when every block is one a commit can hold |
| ChapterRuns.SplitRoundTripsExactly | engine/src/praelector/store/chapters.py:894-907 | a split inside a block leaves two chapters the editor can read back if and only if there is no white space on either side of the cut |
| ChapterRuns.SplitBreaksRoundTrip | engine/src/praelector/store/chapters.py:894-907 | the block `a b` divided behind its space: the text of the left chapter does not split back into its block |
| Versions.RewriteIsSound | engine/src/praelector/store/chapters.py:787-815 | closing rows and inserting rows of the next revision leads from one sound table to the next: dated, non-overlapping, and open exactly where the block lists say |
| Versions.RewriteKeepsHistory | engine/src/praelector/store/chapters.py:787-815 | such a rewrite changes no earlier revision, key by key |
| Versions.RewriteIsReadable | engine/src/praelector/store/chapters.py:787-815 | every revision, old and new, reads back as the block lists the book had then |
| Versions.RewriteTwice | engine/src/praelector/store/chapters.py:564-573 | interleaved rewrites of different blocks in one revision are one rewrite |
| Versions.ShownDetermines | engine/src/praelector/store/chapters.py:728-735 | the rows visible at a revision determine each chapter's block list |
| BookTables.Tables.ReversionBlocks | engine/src/praelector/store/chapters.py:787-815 | the two loops close exactly the given rows and insert their successors under keys that were free |
| BookTables.Tables.AddBlock | engine/src/praelector/store/chapters.py:759-785 | the primary key `id:revision` of an inserted row is never taken |
| BookTables.Tables.Active | engine/src/praelector/store/chapters.py:660-667 | the live chapters, each once, in rising ordinal order |
| BookTables.Tables.CurrentBlocks | engine/src/praelector/store/chapters.py:728-735 | the open rows of a chapter in ordinal order are its block list |
| BookTables.Tables.Flush | engine/src/praelector/store/chapters.py:826-834 | rows are written one by one in any order; UNIQUE holds after every write, and when the targets are free the flush succeeds |
| BookTables.Tables.WriteOrdinals | engine/src/praelector/store/chapters.py:826-834 | the two-phase renumbering succeeds if and only if there is nothing to write or fewer than 1,000,000 removed chapters |
| BookTables.Tables.ShiftOrdinals | engine/src/praelector/store/chapters.py:836-842 | exactly the chapters from `start` on move by `delta`; it fails exactly when some would move and 1,000,000 chapters were removed |
| BookTables.Tables.NextTombstone | engine/src/praelector/store/chapters.py:844-850 | one below the lowest ordinal, so removed chapters are numbered -1, -2, ... |
| BookTables.Tables.RefreshCharCount | engine/src/praelector/store/chapters.py:817-824 | the count of a chapter is the number of its non-space characters |
| BookTables.ExtractableIsInk | engine/src/praelector/ebook/blocks.py:60-62 | the count of a text is the number of its places that hold no white space |
| SplitEdit.CharCountIsInk | engine/src/praelector/store/chapters.py:817-824 | the count of a chapter is the number of places of its text that hold no white space |
| Ordinals.TempsAreFree | engine/src/praelector/store/chapters.py:50-53 | below 1,000,000 removed chapters no temporary ordinal meets another row, whatever the order of the writes |
| Ordinals.TempsCollide | engine/src/praelector/store/chapters.py:50-53 | with 1,000,000 removed chapters the first temporary ordinal is taken, so the claim of the comment fails |
| Ordinals.FinalsAreFree | engine/src/praelector/store/chapters.py:826-834 | from the temporary ordinals every row can move to its place in any order |
| Ordinals.LiveIsOrder | engine/src/praelector/store/chapters.py:660-667 | a sorted list of the live chapters is the narration order |
| BookTables.NextIsGood | engine/src/praelector/store/chapters.py:787-850 | one lemma for all edits: a consistent rewrite plus a consistent renumbering preserves the invariant of the store |
| ChapterStore.ChapterStore.Ingest | engine/src/praelector/store/chapters.py:147-192 | refused exactly when chapters exist and the revision is not 0; otherwise the book holds the chapters of the source in order, with their titles and the kind, level, text and source of every block |
| IngestEdit.WithChapterIsGood | engine/src/praelector/store/chapters.py:613-643 | adding a chapter with new ids keeps the invariant, including every earlier revision |
| IngestEdit.ClearedIsGood | engine/src/praelector/store/chapters.py:603-611 | clearing an unedited book leaves a valid empty one |
| IngestEdit.IngestedHolds | engine/src/praelector/store/chapters.py:613-641 | a book that is read in holds exactly the chapters of the source: titles (a blank one becomes its place), kinds, levels, texts and sources of the blocks |
| ChapterStore.ChapterStore.Merge | engine/src/praelector/store/chapters.py:251-286 | the exact error for every input, nothing changed on error; else the earlier chapter gets its own blocks followed by the later one's, the later one becomes the next tombstone and the order loses it |
| ChapterEdits.MergeLeads | engine/src/praelector/store/chapters.py:270-279 | the rewrite of a merge is consistent: ids, kinds and texts of the moved blocks are kept |
| ChapterEdits.MergeOrders | engine/src/praelector/store/chapters.py:280-282 | after burying and shifting, live chapters are numbered 0..n-1 and tombstones -1..-t again |
| ChapterEdits.MergeIsGood | engine/src/praelector/store/chapters.py:251-286 | the book after a merge satisfies the invariant and is the merge of the two block lists |
| ChapterEdits.MergeKeepsCount | engine/src/praelector/store/chapters.py:817-824 | the merged chapter counts what the two counted |
| ChapterStore.ChapterStore.Split | engine/src/praelector/store/chapters.py:288-379 | the exact error for every chapter, block and offset, nothing changed on error; else the two halves, the new chapter behind the old one, its title and its include flag |
| SplitEdit.SplitIsGood | engine/src/praelector/store/chapters.py:288-379 | the book after a split satisfies the invariant, whether the cut is at a boundary or inside a block |
| SplitEdit.SplitKeepsText | engine/src/praelector/store/chapters.py:894-907 | at any legal offset the characters of the two halves are those of the chapter, in order |
| SplitEdit.SplitCutsThere | engine/src/praelector/store/chapters.py:323-375 | the text is cut at the offset in its block; the halves of a divided block keep kind, level and source, only the second gets a new id, and no piece is made empty |
| SplitEdit.SplitKeepsCount | engine/src/praelector/store/chapters.py:817-824 | the reader characters of the two halves add up to those of the chapter |
| SplitEdit.EmptyTitleExactly | engine/src/praelector/store/chapters.py:910-922 | the new title always differs from the old one, and it is empty if and only if a heading is divided before nothing but white space |
| SplitEdit.TitleIsFirstHeading | engine/src/praelector/store/chapters.py:910-922 | the new chapter is named after the heading it starts with, or after one right behind a divided block, and otherwise after the old chapter |
| SplitEdit.SplitLosesTitle | engine/src/praelector/store/chapters.py:910-922 | a heading with a space at its end, divided before it |
| SplitEdit.MergeUndoesSplit | engine/src/praelector/store/chapters.py:251-379 | a merge right after a boundary split restores ids, kinds, texts and the order of the chapters |
| SplitEdit.DividedRows | engine/src/praelector/store/chapters.py:323-375 | closing the block, inserting its halves and moving the tail add up to one consistent rewrite |
| ChapterStore.ChapterStore.Reorder | engine/src/praelector/store/chapters.py:230-249 | refused exactly for a list that is no permutation; no block row and no revision changes, only ordinals |
| ChapterEdits.ReorderRenumbers | engine/src/praelector/store/chapters.py:241-245 | any permutation renumbers the live chapters to 0..n-1 in the new order |
| ChapterStore.ChapterStore.PutText | engine/src/praelector/store/chapters.py:455-516 | no revision when the text splits into the blocks as they are, conflict on a stale base, else a commit: ids from the stable matching; a block with an old id keeps its kind, level and source, any other is a new paragraph |
| TextEdit.CommitFits | engine/src/praelector/store/chapters.py:478-505 | the ids of a commit are the chapter's own or newly minted and none is used twice, because the association is injective |
| TextEdit.CommittedIsCommitOf | engine/src/praelector/store/chapters.py:489-505 | told from the ids and the old blocks: a block with an id of the chapter has the kind, level and source of that block, one without is a paragraph with none |
| TextEdit.OneTextCommitted | engine/src/praelector/store/chapters.py:478-505 | a commit that changes one text leaves every other block as it was, and the changed one keeps id, kind, level and source if and only if its text is similar enough |
| TextEdit.CommitIsGood | engine/src/praelector/store/chapters.py:483-506 | the book after a commit satisfies the invariant |
| ChapterStore.ChapterStore.Replace | engine/src/praelector/store/chapters.py:518-577 | hits, count and preview; a revision exactly when some text changes and it is no dry run; the new texts, and nothing else |
| TextEdit.RetextIsGood | engine/src/praelector/store/chapters.py:564-576 | the book after texts changed in place satisfies the invariant |
| TextEdit.EditsMeanChange | engine/src/praelector/store/chapters.py:556-561 | the list of edits is empty exactly when the replacement changes no block |
| TextEdit.NothingToReplace | engine/src/praelector/store/chapters.py:551-557 | a text without a match is left alone, so skipping it is right |
| TextEdit.ReplacedByItself | engine/src/praelector/store/chapters.py:556-558 | replacing a text by itself is no edit |
| TextEdit.ReplacedLength | engine/src/praelector/store/chapters.py:551-556 | each counted match changes the length by the same amount, so the count is the number of replacements |
| ReplaceProofs.ReplaceIsJoin | engine/src/praelector/store/chapters.py:551-557 | replacing puts the replacement for every match, taken from the left without overlap, and the count is that of the matches |
| ReplaceProofs.HasParts | engine/src/praelector/store/chapters.py:551-557 | every text is made up of such matches and what stands between them |
| ReplaceProofs.HitsAreExact | engine/src/praelector/store/chapters.py:540-563 | the hits are exactly the blocks with matches, each with its number, and the total is that of all matches |
| ReplaceProofs.ConflictsAreExact | engine/src/praelector/store/chapters.py:402-453 | each conflict is named by its block and the text it quotes |
| ChapterStore.ChapterStore.ApplyReading | engine/src/praelector/store/chapters.py:402-453 | conflict on a stale base, `ValueError` with nothing changed, no revision when nothing changed, else the texts of `apply_block` under the next revision |
| ChapterStore.ChapterStore.Text | engine/src/praelector/store/chapters.py:381-400 | the plain view is the live blocks joined with a blank line |
| Plain.AssociateBlockIds | engine/src/praelector/text/plain.py:44-78 | the ids returned are those of the greedy matching |
| Plain.MatchingIsStable | engine/src/praelector/text/plain.py:52-77 | no id or block is used twice, every match meets the threshold, and a left-out eligible pair lost one side to a match that ranks at least as high |
| Plain.OnlyStableMatching | engine/src/praelector/text/plain.py:66-77 | the stable matching is unique, so it does not depend on how it is found |
| Plain.IdsAreInjective | engine/src/praelector/text/plain.py:44-78 | no id is given to two blocks and each one is an id of the chapter |
| Plain.UnchangedMatchesItself | engine/src/praelector/text/plain.py:44-78 | an unchanged list of texts is matched with itself position by position, also with repeated texts |
| Plain.SameTextStays | engine/src/praelector/text/plain.py:44-78 | a text that did not change keeps its id |
| Plain.OneTextMatched | engine/src/praelector/text/plain.py:44-78 | when one text changed, the others keep their ids and it keeps its own if and only if its ratio is at least 0.6 |
| Plain.RivalsAreRanked | engine/src/praelector/text/plain.py:44-78 | of two rivals the more similar wins, then the closer, then the earlier block, then the later text |
| PlainText.EditorRoundTrip | engine/src/praelector/text/plain.py:23-35 | splitting the joined blocks gives them back if and only if each is non-empty, stripped, free of CR and of blank lines |
| PlainText.CommitsGiveParts | engine/src/praelector/text/plain.py:28-35 | every block a commit yields is of that form |
| PlainText.SplitKeepsInk | engine/src/praelector/text/plain.py:28-35 | splitting loses nothing but white space |
| PyText.NewlinesAtCrLf | engine/src/praelector/text/plain.py:28-35 | CR LF is one line break |
| PyText.NewlinesAtCr | engine/src/praelector/text/plain.py:28-35 | CR alone is one line break |
| Apply.ApplyBlock | engine/src/praelector/text/apply.py:53-95 | the loops of `apply_block` compute its functional form, error case included |
| ApplyProofs.ApplyBlockText | engine/src/praelector/text/apply.py:60-79 | for disjoint rewrites that quote the block, in any order, the result is the simultaneous substitution |
| ApplyProofs.ApplyBlockRaises | engine/src/praelector/text/apply.py:155-174 | it raises `ValueError` if and only if rewrites delete all of an unspoiled suggestion's text |
| ApplyProofs.DeletionUnderReadingRaises | engine/src/praelector/text/apply.py:155-174 | a concrete batch on which it raises |
| ApplyProofs.ApplyBlockCarries | engine/src/praelector/text/apply.py:133-174 | every suggestion no rewrite spoils survives and quotes the new text where its own text went; a spoiled one is dropped; none is lost |
| ApplyProofs.CarriedMark | engine/src/praelector/text/apply.py:146-174 | a surviving segment mark covers the same characters as before |
| ApplyProofs.ReadingIsSpoken | engine/src/praelector/text/apply.py:80-95 | an unspoiled reading becomes a pronunciation span over exactly its text |
| ApplySpans.SpansAreExact | engine/src/praelector/text/apply.py:80-130 | the spans of a clean batch are, with multiplicity, those its suggestions become: readings, skips and split stretches where their text went, each stretch of dialogue with the first gender that lands on it; by start, end and kind |
| ApplySpans.ConflictsAreCounted | engine/src/praelector/text/apply.py:74-95 | a clean batch has one conflict for each suggestion that is spoiled or has nothing to do, and no others |
| ApplyProofs.SpansInRange | engine/src/praelector/text/apply.py:80-130 | for any batch, also overlapping or stale, every emitted span lies in the result |
| Substitution.PutAllIsExpand | engine/src/praelector/text/apply.py:60-79 | slice assignments from right to left carry out all edits at once |
| Sorting.SortIsStable | engine/src/praelector/text/apply.py:60-60 | `sorted` keeps the order of elements of the same rank |
| Speech.SpokenFormIsExpand | engine/src/praelector/text/spoken.py:11-24 | for clean overlays the spoken form is the left-to-right expansion of the overlays |
| Speech.SpokenFormIsTold | engine/src/praelector/text/spoken.py:11-24 | for clean overlays the passes from the right tell the block from the left: a pronunciation as it is spoken, a skip as nothing, every other character as it stands |
| Speech.SpokenTileByTile | engine/src/praelector/jobs/planner.py:64-96 | speaking tile by tile, before stripping, concatenates to the spoken form of the block |
| Planner.CoverTiles | engine/src/praelector/jobs/planner.py:64-85 | `_cover` is a contiguous tiling of the block; every tile is the end piece of a narration, dialogue or pause span, or a narration filler that touches none |
| Planner.PauseSurvives | engine/src/praelector/jobs/planner.py:64-85 | a pause becomes a tile if and only if it is not at offset 0 and no structural span that starts before it reaches it |
| Planner.PausesThatAreLost | engine/src/praelector/jobs/planner.py:64-85 | a pause at offset 0 and a pause at the end of a stretch of dialogue are not tiles |
| Runs.SpokenRuns | engine/src/praelector/jobs/planner.py:33-61 | the planner's loops compute the runs of the tiles, also for spans that reach past the end of the text |
| Runs.RunsMeaning | engine/src/praelector/jobs/planner.py:99-154 | every spoken character that is no white space, and every pause, is heard once, in order, in its slot and chapter; runs are maximal |
| ReaderExport.EmitLoop | engine/src/praelector/ebook/reader_export.py:83-97 | the recursive printer, with its measure (interval length, top flag) |
| ReaderExportProofs.AnnotateReadsBack | engine/src/praelector/ebook/reader_export.py:52-141 | for any text and spans in any order and overlap, erasing tags and decoding entities gives the text without forbidden characters, up to its line breaks, and exactly if it has no CR; tags are well nested |
| ReaderExportProofs.PrintPreserved | engine/src/praelector/ebook/reader_export.py:52-141 | the text is preserved exactly if and only if it has no control characters but tab and LF |
| ReaderMarks.EverySpanIsMarked | engine/src/praelector/ebook/reader_export.py:83-141 | in a nested family every span, and every empty pause, is printed at its own place: what stands before prints the text up to it, its tag reads back as its kind and values and nothing else, and what it wraps prints its text |
| ReaderMarks.OpenSays | engine/src/praelector/ebook/reader_export.py:124-132 | a reader of name-value pairs finds in an opening tag exactly the name of the kind, the spoken form of a pronunciation, and the gender and speaker of dialogue |
| ReaderMarks.PauseSays | engine/src/praelector/ebook/reader_export.py:88-92 | the tag of a pause reads back as its milliseconds and nothing else |
| ReaderMarks.XmlAttrDecodes | engine/src/praelector/ebook/reader_export.py:135-141 | an attribute value decodes to the value without forbidden characters and with LF for line breaks, and has no quote in it |
| ReaderMarks.SameStretchFirstByName | engine/src/praelector/ebook/reader_export.py:100-121 | of two marks on one stretch only the one whose kind has the first name is printed |
| ReaderCounts.MarksAreCounted | engine/src/praelector/ebook/reader_export.py:83-121 | the number of marks: one for each wrapping span, one for each pause, and one more for a pause at each wrapping span that ends where it stands |
| ReaderCounts.PrintedOnceExactly | engine/src/praelector/ebook/reader_export.py:83-121 | every mark is printed once if and only if no pause stands where a wrapping span ends |
| ReaderCounts.PausePrintedTwice | engine/src/praelector/ebook/reader_export.py:83-121 | a pause at the end of a stretch of dialogue is printed twice |
| ReaderExportProofs.OpenIsTag | engine/src/praelector/ebook/reader_export.py:124-141 | no attribute value can end a tag |
| Segment.Segment | engine/src/praelector/text/segment.py:66-77 | the segmenter's loops compute its functional form |
| Segment.SentencesSegmented | engine/src/praelector/text/segment.py:66-116 | for every text and abbreviation table the sentences are trimmed, ordered, disjoint, and the gaps are white space |
| SegmentProofs.SentenceStartsExactly | engine/src/praelector/text/segment.py:66-116 | a sentence starts at the first text, and wherever punctuation outside every abbreviation is followed by closing quotes, white space, opening quotes and a capital, digit or dash, unless an abbreviation runs over the end in front; nowhere else |
| SegmentProofs.StartsAre | engine/src/praelector/text/segment.py:66-77 | the starts that are found are those that a run of punctuation leads to |
| Chunker.PackLoop | engine/src/praelector/jobs/chunker.py:114-136 | the packing loop computes its functional form |
| ChunkerProofs.PackIsMinimum | engine/src/praelector/jobs/chunker.py:114-136 | no grouping of neighbouring pieces that fits the limit has fewer groups than the greedy packer, and the packer's grouping fits |
| ChunkerProofs.ChunksKeepWords | engine/src/praelector/jobs/chunker.py:114-157 | up to white space and clause characters the chunks are the run's text |
| ChunkerProofs.ChunksFit | engine/src/praelector/jobs/chunker.py:114-157 | every chunk is at most the limit or has no space in it |
| ClauseProofs.ClausesComeFirst | engine/src/praelector/jobs/chunker.py:139-157 | a sentence that is too long is first broken at the first separator that divides it: no piece has that separator in it |
| ClauseProofs.SemicolonsBeforeCommas | engine/src/praelector/jobs/chunker.py:139-157 | a semicolon that divides comes before a comma |
| ClauseProofs.BreakIsLast | engine/src/praelector/jobs/chunker.py:139-157 | without a dividing separator it is broken at the last space that fits, or the first there is; without a space it stays whole |
| ClauseProofs.SplitIsExact | engine/src/praelector/jobs/chunker.py:139-157 | `split` is undone by `join` and leaves no separator in a part |
| ClauseProofs.PiecesWithin | engine/src/praelector/jobs/chunker.py:139-157 | every piece is a stretch of the sentence |
| Plan.PlanRuns | engine/src/praelector/jobs/chunker.py:43-88 | the plan of the runs, and the error for a limit below 1 |
| Plan.PlanSaysTheRuns | engine/src/praelector/jobs/chunker.py:43-111 | a plan says exactly the words of the runs, each in its chapter and slot, silences in place, ordinals 0, 1, ... |
| BookPlan.PlanSaysTheBook | engine/src/praelector/jobs/planner.py:33-154 | from blocks to chunks: a plan says exactly the words of all tiles, in order, each in its chapter and slot, pauses in place; for clean blocks these are the words of the blocks with every pronunciation as it is spoken and no skip |
| BookPlan.BlocksSay | engine/src/praelector/jobs/planner.py:33-96 | without slots, the tiles of clean blocks say the words of the blocks told from left to right with their pronunciations and without what is skipped |
| Dialogue.SegmentByDashes | engine/src/praelector/text/dialogue.py:159-303 | the dash branch runs as its functional form |
| DialogueProofs.DashesAreMarks | engine/src/praelector/text/dialogue.py:159-204 | the dashes found are exactly the hyphens and dashes followed by white space or the end and preceded by nothing, a colon or white space, each with its kind and content |
| DialogueProofs.ConfirmedAre | engine/src/praelector/text/dialogue.py:207-246 | confirmed are exactly: every dash at the start or behind a colon, every one in front of a verb of saying, the one behind such an aside, and the one in front of the first aside |
| DialogueProofs.VoicesAreRight | engine/src/praelector/text/dialogue.py:277-303 | every segment is trimmed, holds no switching dash, and is narration if the last switch before it is an aside or there is none, else dialogue |
| DialogueProofs.AllNarration | engine/src/praelector/text/dialogue.py:207-303 | without an opening dash and without one in front of a verb of saying nothing is confirmed and all is narration |
| Dialogue.VoicesAgree | engine/src/praelector/text/dialogue.py:207-297 | the state the tiler rebuilds equals the state the confirming pass held, at every confirmed dash |
| Dialogue.DashTilingIsExact | engine/src/praelector/text/dialogue.py:277-303 | segments are ordered, disjoint and non-empty, and hold every character that is neither space nor dash exactly once |
| Dialogue.NoTrailingDash | engine/src/praelector/text/dialogue.py:159-193 | a dash of kind `trailing` never occurs |
| Dialogue.Trim | engine/src/praelector/text/dialogue.py:408-423 | the nested trimming loops |
| JobStates.PathsAreSafe | engine/src/praelector/jobs/state.py:29-56 | along legal edges a prep job never muxes, an ended job stays, and nothing returns to the queue |
| JobStates.DoneMeansMuxed | engine/src/praelector/jobs/state.py:44-56 | a record job cannot be done without having been rendered |
| JobStates.EventsDecide | engine/src/praelector/jobs/state.py:29-56 | a new job comes to a state by exactly the legal orders of events, and its last event tells which state |
| JobStates.ActiveMeansMoves | engine/src/praelector/jobs/state.py:29-56 | a job is active if and only if some event can move it |
| JobStates.StageGoesBackExactly | engine/src/praelector/jobs/state.py:66-72 | the stage shown goes back exactly when muxing is stopped or fails |
| Checkpoint.JobLog.Apply | engine/src/praelector/jobs/checkpoint.py:123-154 | the line of the new state, then `job.json`, cut off where the process dies |
| Checkpoint.JobLog.NoteProgress | engine/src/praelector/jobs/checkpoint.py:156-186 | refused unless running; else the line with cursor and counts, then `job.json` |
| Checkpoint.JobLog.Open | engine/src/praelector/jobs/checkpoint.py:188-219 | catches up with the log and pauses a job that was running or muxing, with the reason, also when it dies half way |
| Checkpoint.JobLog.EventsSince | engine/src/praelector/jobs/checkpoint.py:227-229 | the lines after a sequence number |
| Checkpoint.RunsAreSafe | engine/src/praelector/jobs/checkpoint.py:123-259 | in every run of opens, transitions, routes and deaths the log stays numbered 1..n if and only if no route meets a `job.json` that fell behind |
| Checkpoint.RunsAreSane | engine/src/praelector/jobs/checkpoint.py:123-259 | whatever the routes do: `job.json` never runs ahead of the log, no line is lost, and the record is well formed (prep never muxing, finished_at exactly when ended, paused_reason only while paused) |
| Checkpoint.ExecIsSafe | engine/src/praelector/jobs/checkpoint.py:188-219 | a completed open returns last_seq = n and a job neither running nor muxing |
| Checkpoint.TerminalIsForever | engine/src/praelector/jobs/state.py:29-63 | a job that ended in `job.json` keeps its record and its log in every run, routes included |
| Checkpoint.RunsKeepIdentity | engine/src/praelector/jobs/checkpoint.py:123-219 | a job keeps its id, project and kind, and never becomes active again |
| Checkpoint.OpenIsIdempotent | engine/src/praelector/jobs/checkpoint.py:188-219 | opening again changes nothing |
| Checkpoint.SinceIsSuffix | engine/src/praelector/jobs/checkpoint.py:227-229 | a reconnecting client gets exactly the suffix it missed |
| Checkpoint.DeathAndRouteRepeatSeq | engine/src/praelector/api/v1/jobs.py:116-118 | a run with one death between the two writes and one route: two lines have the same number |
| Checkpoint.FreshRouteIsApply | engine/src/praelector/api/v1/jobs.py:116-118 | while `job.json` has not fallen behind and the job was not left running, a route does what an open and an apply do |
| Jobs.JobsDir.CreateQueued | engine/src/praelector/jobs/create.py:27-51 | refused exactly when the project has an active job; otherwise a queued job of the project with nothing done |
| Jobs.NeverTwoActive | engine/src/praelector/jobs/create.py:37-51 | no run of creations, transitions, routes, recoveries and deaths gives one project two active jobs |
| Jobs.JobManager.Adopt | engine/src/praelector/jobs/manager.py:37-42 | a live job in the slot blocks adoption; the log that is adopted is complete if and only if it was numbered up to the record |
| Jobs.JobManager.Send | engine/src/praelector/jobs/manager.py:91-97 | start, pause and resume: the exact outcome, and the log stays complete |
| Jobs.JobManager.StopJob | engine/src/praelector/jobs/manager.py:72-76 | a job that has not ended is cancelled, whatever its state |
| Jobs.JobManager.Reset | engine/src/praelector/jobs/manager.py:78-89 | the slot is freed exactly when its job is not active |
| Chunks.ChunkDir.CommitChunk | engine/src/praelector/jobs/commit.py:22-50 | each refusal and its effect on the part; a committed chunk is reusable; a death leaves the part or the WAV |
| Chunks.RenderingIsCrashSafe | engine/src/praelector/jobs/commit.py:22-50 | wherever a render is cut off other chunks are untouched, a complete one is reusable, and between the rename and the sidecar it is reusable exactly when an old sidecar already matches |
| Chunks.OthersStayReusable | engine/src/praelector/jobs/reuse.py:15-27 | the judgement of a chunk looks only at its own two files |
| Chunks.Store.ReconcileChunks | engine/src/praelector/store/reconcile.py:35-59 | only parts and complete pairs stay, exactly their keys are returned in order, every torn file is set aside unchanged and nothing else appears there, what is overwritten is named, and without a torn file nothing moves |
| Chunks.KeptIsComplete | engine/src/praelector/store/reconcile.py:35-59 | after a reconcile a key has files exactly when it is reusable |
| Chunks.ReconcileIsIdempotent | engine/src/praelector/store/reconcile.py:35-59 | a second reconcile moves nothing |
| Chunks.SecondReconcileAgrees | engine/src/praelector/store/reconcile.py:35-59 | and returns the same list of keys |
| Chunks.WriteChunkIndex | engine/src/praelector/store/reconcile.py:62-92 | the project has a row for exactly the keys whose files are there; other projects' rows stay |
| Chunks.IndexMatchesDisk | engine/src/praelector/store/reconcile.py:62-92 | a key that reconciled gets a row with the size and duration of its sound file |
| FakeRun.PassRendersMissing | engine/src/praelector/jobs/fake_run.py:45-58 | a pass renders exactly the speech chunks that were not reusable, each once also when lines share it, and afterwards all are reusable |
| FakeRun.SecondPassReuses | engine/src/praelector/jobs/fake_run.py:45-58 | a second pass renders nothing |
| FakeRun.DyingPassKeepsChunks | engine/src/praelector/jobs/fake_run.py:45-58 | a pass that dies in a render keeps every reusable chunk |
| FakeRun.RerunFinishes | engine/src/praelector/jobs/fake_run.py:45-58 | a death in a pass, a reconcile, a second pass: it renders exactly what the first one had not finished, each once, and afterwards every speech chunk is reusable |
| FakeRun.RenderPass | engine/src/praelector/jobs/fake_run.py:28-79 | refused unless running; else the chunks, counts, cursor, two log lines and the state `muxing`, or `done` for a prep job |
| FakeRun.CursorIsFirstMissing | engine/src/praelector/jobs/cursor.py:15-23 | the cursor is the first missing speech ordinal, or one past the last item |
| Gpu.BudgetFits | engine/src/praelector/gpu/budget.py:57-122 | effective workers times peak fits beside the reserve if and only if there is no low-memory warning, and one more worker breaks the cap, the backend limit or the reserve |
| Gpu.BudgetIsExact | engine/src/praelector/gpu/budget.py:57-122 | a number of workers is within the budget if and only if it is within cap and backend limit and fits beside the reserve, unless it is one; without a readable card there is one |
| Gpu.ReserveIsLeast | engine/src/praelector/gpu/budget.py:132-136 | the reserve that is asked for, not below 0; by default the least that is a fifth of the card and not below 1536 MiB |
| Gpu.PeakOf | engine/src/praelector/gpu/budget.py:139-170 | an override, else a measurement, else the seed; refused unless positive |
| Gpu.VramMonitor.Poll | engine/src/praelector/gpu/monitor.py:78-100 | a probe runs only when the interval has passed, and the decision is that of the sampled history |
| Gpu.VramMonitor.Decide | engine/src/praelector/gpu/monitor.py:102-136 | the counter automaton is the history specification |
| Gpu.PausedMeans | engine/src/praelector/gpu/monitor.py:102-123 | paused exactly when some reading was below the reserve and fewer than `resume_samples` readings (at least one) followed the last such one |
| Gpu.AdmissionGate.TryAcquire | engine/src/praelector/jobs/admission.py:30-37 | paused, wait or admit, and held never exceeds the slots |
| Gpu.AdmissionGate.Release | engine/src/praelector/jobs/admission.py:39-42 | an extra release is ignored |
| Gpu.DispatchItems | engine/src/praelector/jobs/scheduler.py:31-57 | the loop takes what its functional form says and holds one more slot per started worker |
| Gpu.DispatchIsPrefix | engine/src/praelector/jobs/scheduler.py:44-57 | what is dispatched is the longest prefix of the waiting items that the free slots allow: no chunk jumps a waiting one |
| Gpu.SampleIsProtectedExactly | engine/src/praelector/jobs/scheduler.py:31-57 | the workers one dispatch starts fit into the memory of its sample beside the reserve if and only if the waiting chunks, or the free slots, are not more than that memory holds |
| Gpu.SampleIsNotProtected | engine/src/praelector/jobs/scheduler.py:31-57 | two missing chunks, two free slots and room for one worker: both start |
| Gpu.ReserveIsProtected | engine/src/praelector/jobs/scheduler.py:31-57 | for a budget without the warning, under any dispatches and releases, held workers times peak never exceeds the budgeted free memory minus the reserve |
| Ready.AwaitReady | apps/desktop/src/engine/ready.rs:124-184 | for any way in which the pieces of the two streams arrive: the exact outcome and both logs, read off the text the loop gets to see up to the first arrival that decides |
| Ready.ReadWholeExactly | apps/desktop/src/engine/ready.rs:166-175 | the loop sees stdout as it was written if and only if no read of stderr returns inside one of its lines; otherwise it sees less |
| ReadyLines.ErrReadWholeExactly | apps/desktop/src/engine/ready.rs:166-175 | the loop sees stderr as it was written if and only if no read of stdout returns inside one of its lines; otherwise it sees less |
| Ready.ArrivalMattersExactly | apps/desktop/src/engine/ready.rs:140-184 | while stdout is read whole, outcome and recorded lines are those of splitting it at once if and only if no broken announcement on stderr comes before its decision or late behind it |
| Ready.BrokenErrLineAborts | apps/desktop/src/engine/ready.rs:159-160 | a broken announcement on stderr ends a handshake that stdout would complete |
| Ready.LateBrokenErrLineAborts | apps/desktop/src/engine/ready.rs:148-158 | also when it comes behind the announcement |
| Ready.HalfLineIsLost | apps/desktop/src/engine/ready.rs:166-175 | a harmless line of stderr inside the announcement: the handshake runs out of time |
| Ready.HalfLineMayAnnounce | apps/desktop/src/engine/ready.rs:166-175 | and inside a line that is no announcement it may leave one |
| Ready.Turn | apps/desktop/src/engine/ready.rs:140-160 | one turn of the loop: which stream decides, and what late stderr can still do |
| Ready.DrainLines | apps/desktop/src/engine/ready.rs:218-241 | every complete line leaves the buffer, up to one that stops the loop |
| Ready.DrainAppend | apps/desktop/src/engine/ready.rs:214-241 | draining a text equals draining its first part and then what is left with the second part |
| ReadyLines.DrainsAll | apps/desktop/src/engine/ready.rs:218-241 | told from the lines of a text: without a stopping line every line that is not blank is recorded without its line end, and the half line is left |
| ReadyLines.DrainsUpTo | apps/desktop/src/engine/ready.rs:218-241 | the first stopping line is not recorded and decides what is found; the lines before it are recorded and those behind it are left |
| ReadyLines.HasLines | apps/desktop/src/engine/ready.rs:218-241 | every text has its lines |
| ReadyLines.AnnouncementMeans | apps/desktop/src/engine/ready.rs:65-118 | a line announces exactly when it starts with the prefix and its payload is an object with a port in 1..65535; pid and schema are cut to 32 bits |
| Ready.CutText | apps/desktop/src/engine/ready.rs:214-217 | losing a half line loses nothing of the complete lines before it |
| Ready.FedAlike | apps/desktop/src/engine/ready.rs:145-146 | what an arrival does to the whole text of a stream it does to the buffer of the loop |
| Ready.FoundStaysFound | apps/desktop/src/engine/ready.rs:218-241 | a line that stopped a prefix stops the whole in the same way |
| Ready.AnnouncementIgnoresLineEnd | apps/desktop/src/engine/ready.rs:65-118 | CR LF makes no difference, and only a port in 1..65535 is announced |
| Supervisor.Supervise | apps/desktop/src/engine/supervisor.rs:147-172 | over any engine behaviour: each launch ends as its script says, and is followed by another exactly when its fault may be retried, fewer than `limit` restarts are recent, a round is left and no stop comes between; every closed window holds at most `limit` restarts; the wait behind each launch and the final state are exact |
| Supervisor.FaultIsFollowed | apps/desktop/src/engine/supervisor.rs:147-218 | an engine that exits or stops answering while it serves is launched again, if the budget allows it, a round is left and no stop is asked for |
| Supervisor.RecordKeepsLimit | apps/desktop/src/engine/supervisor.rs:179-218 | the budget check is what keeps the sliding-window limit |
| Supervisor.CountsRecentStamps | apps/desktop/src/engine/supervisor.rs:50-56 | the filter counts the stamps not older than the window |
| Supervisor.BudgetExhausted | apps/desktop/src/engine/supervisor.rs:50-56 | the filter counts the stamps not older than the window, a stamp exactly at its edge included |
| Supervisor.ContinueAfter | apps/desktop/src/engine/supervisor.rs:179-218 | a delay exactly for a retryable error within the budget, taken from the streak before it grows; else fatal with the right error |
| Supervisor.Attempt | apps/desktop/src/engine/supervisor.rs:230-324 | how a launch ends, case by case, for announced launches by the first deciding event; endpoint, pid, version, state and exit code after it |
| Supervisor.WatchHealth | apps/desktop/src/engine/supervisor.rs:353-395 | the first stop, exit or full run of unhealthy answers decides; only a stop or the end of the events gives Stopped, an exit counts as at least one failure; the streak is reset only by a healthy answer, whose last status is shown |
| Supervisor.BackoffDelay | apps/desktop/src/engine/supervisor.rs:40-44 | 1, 2, 4, 8 and then 16 seconds |
| Supervisor.Teardown | apps/desktop/src/engine/supervisor.rs:397-423 | terminate only after the shutdown wait ran out, kill only after the second wait did |
| Supervisor.Shared.Publish | apps/desktop/src/engine/mod.rs:255-264 | the endpoint appears together with readiness |
| Supervisor.Shared.SetState | apps/desktop/src/engine/mod.rs:266-275 | leaving readiness hides the endpoint |
| Supervisor.Shared.BeginAttempt | apps/desktop/src/engine/mod.rs:279-286 | a new launch hides endpoint and error |
| Supervisor.Shared.Fail | apps/desktop/src/engine/mod.rs:306-312 | fatal, with the error and without an endpoint |

## Left out

- ChapterStore.ChapterStore.ApplyReading: stores the texts and decides on the revision also from the spans, but the rows of the span table that it closes and adds are not modelled.
- ChapterStore.ChapterStore.Text: only the plain view; the spoken view reads the span table.
- The project manifest, the revision labels, time stamps and `update` (rename, include): plain fields.
- Reading an EPUB: `Ingest` starts from the parsed chapters, whose blocks are numbered by position.
- Negative split offsets, which the code does not refuse.
- Unicode: normalisation, case folding and the upper-case table are parameters; `IsSpace` and the dashes are the code's own sets.
- `SequenceMatcher`: only that a ratio lies in [0, 1] and that a text is entirely like itself.
- `pysbd` and the span parser of its engine; abbreviations reach the guard as spans.
- The quote branches and the confidence values of the dialogue analysis, and the tokenizer behind `_starts_with_speech`, which is a parameter.
- Confidence, speaker and gender of spans beyond what `_paint_gender` copies.
- The render key of a plan item. Its fields are hashed without separators, and nothing is claimed about it.
- ReaderExportProofs.AnnotateReadsBack: for a text with CR it does not say how many LF are printed where a span cuts a CR LF in two.
- Speech.SpokenTileByTile: leaves out empty overlays, which may stand on the boundary of two tiles.
- Checkpoint.RunsAreSafe: speaks of whole lines; a torn log line and a failing disk are outside the model.
- Checkpoint.TerminalIsForever: speaks of `job.json`; a death can leave a logged end that `job.json` never reached.
- `pause` deleting part files and `reset` deleting audio.
- Checkpoint.RunsAreSane: a route is modelled as the engine has it, with nothing beside it that holds the record.
- Chunks.WriteChunkIndex: assumes that no row of another project has one of the keys; the database would refuse it.
- Metrics of a render pass: throughput and rates are floating point.
- Detection of GPUs, and `after_oom`, which is one comparison.
- Ready.AwaitReady: the time budget is reached when the arrivals run out; real time, bytes that are no UTF-8 and the scheduling of tasks are not modelled.
- Spawning, HTTP, process groups and the log buffer of the shell.
