# A verified model of the zed-editor text core

This project models the text-editing core of the `zed-editor` repository, a
small Rust editor, in Dafny. It covers:

- the **sum tree** (`SumTree`, `Node`, `SumTreeIter`) and its summaries (`Count`, `TextSummary`, `TextMetrics`);
- the **rope**, a sum tree of UTF-8 `Chunk`s, with its line and byte queries;
- the **buffer**: a rope plus a viewport-window line-offset cache and a predictive precache range;
- the simple map-based **line cache** and the lazy **line index** with its progressive indexer;
- **points, offsets and selections**;
- **transactions and snapshot history** (undo/redo);
- the **editor**: cursor, typing, backspace, delete, moves, undo and redo;
- the **indent calculator**: the text-based rules and the tree-based rule with the syntax node kind given as input.

Text is `seq<char>`; Dafny's `char` is a Unicode scalar value, as a Rust
`char` is. Byte offsets are the UTF-8 encoding's: `Utf8.ByteLen` sums the
width of each character (1 to 4 bytes), and `Utf8.IsCharBoundary` is
`str::is_char_boundary`. `str::len()` is `ByteLen`. `'\n'` is counted through
the encoding, so a newline is always the byte 10 (`TextLines.NewlineCountOfEncoding`).

What the Rust code computes is written as specification functions:

- `TextLines.Line`, `LineToByte`, `ByteToLineCol`, `LineByteRange` and `SplitLines`;
- `StrLines`, which is `str::lines`;
- `Edits.InsertedText` and `DeletedText`;
- `Buffers.PointToOffsetSpec` and `OffsetToPointSpec`;
- `Histories.Pushed`, `Undone` and `Redone`;
- the indent functions.

Each method that walks chunks, scans characters or updates fields is proved
against these functions. Lemmas then relate the functions to each other:

- insertion and deletion undo each other;
- a point survives the trip to a byte offset and back;
- undo and redo are inverse;
- the newline starts an index records are the starts `line_to_byte` reports;
- the str-based and rope-based indent fallbacks agree.

Mutable Rust structs (`Rope`, `SumTree`, `SumTreeIter`, `Buffer`,
`LineOffsetCache`, `PredictiveCache`, `LineCache`, `LineIndex`,
`ProgressiveIndexer`, `History`, `Editor`) are classes. Their methods carry
`modifies` clauses and state their new state, the buffer's edits included:
`Buffers.Buffer.Insert` and `Buffers.Buffer.Delete` give the cache window
they leave (`LineCaches.LineOffsetCache.Refreshed`). The exceptions are named
under "## Left out": the cache window after a batch of lookups, and the
buffer's window after an eviction. Immutable values (`Chunk`,
`Point`, `Offset`, `Selection`, `Transaction`, the tree nodes) are datatypes.

Where the specification of the repository and the code disagree, the code is
followed. The points where this matters:

- **Word-batched undo.** The tests expect typed words to be grouped for undo. The code pushes one snapshot per call to `insert`, and so does the model. `Histories.OneUndoPerPush` shows that one undo takes back exactly one push.
- **Backspace and delete remove one byte**, not one character. They delete the bytes `[o-1, o)` and `[o, o+1)` (editor.rs:79-95, editor.rs:112-125). `String::drain` panics when such a range splits a character. So `Editors.Editor.Backspace` and `Editors.Editor.Delete` require the range to fall on character boundaries, which is the condition under which the Rust code does not panic.
- **Deleted text uses a byte offset as a character index.** The deleted text stored in the transaction is `chars().nth(offset)`, with a byte offset used as the index. `Editors.NthCharOr` models this as written. Undo and redo restore snapshots and never read this text.
- **Missing helpers.** `Chunk::newline_positions`, `Chunk::get_newline_position` and `SumTree::from_items` are called by rope.rs (lines 43, 116 and 174) but are not defined in chunk.rs or sum_tree.rs. The model defines them as their callers use them: the byte positions of the chunk's newlines in order; the k-th of them; and a tree holding the given items in order. `Rope::push_str` is called by the rope tests but not defined in rope.rs; the model takes it as `insert(len(), text)`.
- **`test_progressive_indexer`** (line_index.rs:156-167) expects `index_chunk("line3\n")` to return `false`. By the code (line_index.rs:73-76, 97-103) it returns `true`, because 18 bytes have then been indexed for a file of size 18. The model follows the code: `LineIndexes.ProgressiveIndexer.IndexChunk` returns whether the indexed byte count reached the file size.
- **`LineOffsetCache` and `PredictiveCache` have no `Clone` derive** (both derive only `Debug`, line_cache.rs:8 and line_cache.rs:27), but `Buffer` derives `Clone` (buffer.rs:9), which needs a copy of each field. `LineCaches.LineOffsetCache.Clone` and `LineCaches.PredictiveCache.Clone` model the field-by-field copy the derive would produce. `ReusableBuffer` (line_cache.rs:37) has the same missing derive and is left out (see "## Left out").

## Model

| member | source | states |
|---|---|---|
| Summaries.CountAddSummary | src/tree/summary.rs:16-31 | `Count::add_summary` is `+`, and adds the counts |
| Summaries.CountLaws | src/tree/summary.rs:10-31 | adding `Count`s is associative and commutative, with `Count::default()` as identity |
| Summaries.TextSummaryAddSummary | src/tree/summary.rs:41-58 | `TextSummary::add_summary` is `+`, and adds lengths and line counts fieldwise |
| Summaries.TextSummaryLaws | src/tree/summary.rs:34-58 | `TextSummary` addition is associative and commutative, with the default as identity |
| Summaries.CountMonoidLawful | src/tree/summary.rs:5-31 | `Count` with `add_summary` and `default` satisfies the laws the tree relies on |
| SumTrees.FoldConcat | src/tree/sum_tree.rs:37-42 | the summary of two item runs concatenated is the combination of their summaries |
| SumTrees.SummaryIsFold | src/tree/sum_tree.rs:86-92 | a well-formed node's stored summary is the fold of the summaries of the items below it |
| SumTrees.BuildCorrect | src/rope/rope.rs:43 | building a tree from items (`from_items`) keeps exactly those items, in order, with correct summaries |
| SumTrees.PushedNode | src/tree/sum_tree.rs:50-71 | pairing the old root with a new leaf yields a well-formed node holding the old items followed by the new one |
| SumTrees.SumTree.constructor | src/tree/sum_tree.rs:32-34 | a new tree has no root and no items |
| SumTrees.SumTree.FromItems | src/rope/rope.rs:43 | the tree built from a sequence of items holds exactly those items |
| SumTrees.SumTree.Summary | src/tree/sum_tree.rs:37-42 | the tree's summary is the fold of its items' summaries (the default when empty) |
| SumTrees.SumTree.IsEmpty | src/tree/sum_tree.rs:45-47 | true exactly when the tree holds no items |
| SumTrees.SumTree.Push | src/tree/sum_tree.rs:50-71 | the item is appended; the new summary combines the old one with the item's; a non-empty old root becomes the left child of a two-child root |
| SumTrees.SumTree.Clone | src/tree/sum_tree.rs:25-28 | the copy holds the same items under the same summary laws |
| SumTrees.SumTree.Iter | src/tree/sum_tree.rs:74-83 | the new iterator has all of the tree's items still to yield |
| SumTrees.SumTreeIter.constructor | src/tree/sum_tree.rs:74-83 | an iterator over a root yields that root's items |
| SumTrees.SumTreeIter.Next | src/tree/sum_tree.rs:111-138 | `next` yields the first remaining item and drops it, or `None` once nothing remains |
| SumTrees.Collect | src/tree/sum_tree.rs:108-138 | draining the iterator collects the tree's items in order |
| SumTrees.PushTenTwentyThirty | tests/sum_tree_tests.rs:1-39 | pushing counts 10, 20 and 30 gives the summary 60 |
| Chunks.Chunk.New | src/rope/chunk.rs:11-15 | a chunk wraps its text unchanged; its length is the text's byte length |
| Chunks.Chunk.AsStr | src/rope/chunk.rs:18-20 | the text, whose byte length is the chunk's `len` and which wraps back into the same chunk |
| Chunks.Chunk.IsEmpty | src/rope/chunk.rs:28-30 | true exactly when the chunk has zero bytes, that is no text |
| Chunks.Chunk.SplitAt | src/rope/chunk.rs:38-41 | at a character boundary, the halves concatenate to the text and the left one is `pos` bytes long |
| Chunks.Chunk.Slice | src/rope/chunk.rs:44-46 | between boundaries, the slice is the bytes `[start, end)`, of length `end - start`, and fits back between the rest |
| Chunks.Chunk.NewlinePositions | src/rope/rope.rs:174 | one ascending position per newline, each inside the chunk and one byte before the next line's start |
| Chunks.Chunk.GetNewlinePosition | src/rope/rope.rs:116 | the k-th newline's byte position exactly when there are more than k newlines |
| Chunks.CountLinesOfEncoding | src/rope/chunk.rs:33-35 | `count_lines` is the number of byte-10 values in the UTF-8 encoding |
| Chunks.CountLinesSplit | src/rope/chunk.rs:38-41 | splitting a chunk splits its newline count between the halves |
| Metrics.AddSummaryIsAdd | src/rope/metrics.rs:12-29 | `TextMetrics::add_summary` is `+`, adding lengths and line counts fieldwise |
| Metrics.TextMetricsLaws | src/rope/metrics.rs:6-29 | `TextMetrics` addition is associative and commutative, with the default as identity |
| Metrics.ChunkSummaryOfEncoding | src/rope/metrics.rs:33-41 | a chunk's summary is its encoded byte length and the count of newline bytes |
| Metrics.ChunkSummaryConcat | src/rope/metrics.rs:33-41 | the summary of two chunks' texts joined is the sum of their summaries |
| Metrics.ChunkSummarySplit | src/rope/metrics.rs:33-41 | splitting a chunk splits its summary into two summands |
| Metrics.ChunkMonoidLawful | src/rope/metrics.rs:12-41 | chunks summarised by `TextMetrics` satisfy the laws the tree relies on |
| Utf8.CharWidth | src/rope/chunk.rs:23-25 | a character takes 1 to 4 bytes, and 1 exactly for ASCII |
| Utf8.EncodeLength | src/rope/chunk.rs:23-25 | the byte length is the length of the UTF-8 encoding |
| Utf8.ByteLenConcat | src/rope/metrics.rs:15-20 | byte lengths add under concatenation |
| TextLines.NewlineCountOfEncoding | src/rope/chunk.rs:33-35 | counting newline characters is counting byte 10 in the encoding |
| TextLines.NewlineCountConcat | src/rope/metrics.rs:15-20 | newline counts add under concatenation |
| TextLines.SplitLinesMeaning | src/rope/rope.rs:60-93 | there is one piece per newline plus one, and piece k is the text from the start of line k to the next newline |
| TextLines.LineIsSplitPiece | src/rope/rope.rs:60-93 | `line(k)` is piece k, except that an empty last piece is `None` |
| TextLines.LineColMeaning | src/rope/rope.rs:132-186 | the line/column after a prefix is its newline count and the characters since the last newline |
| TextLines.LineSlice | src/rope/rope.rs:60-93 | a line is the slice of the text from its start, and contains no newline |
| TextLines.PositionInLine | src/buffer/buffer.rs:149-170 | the byte offset of column c of line k maps back to (k, c) |
| TextLines.StrLines | src/syntax/indent.rs:95 | `str::lines` yields one line per newline-terminated piece plus a non-empty tail |
| Ropes.FlattenConcat | src/rope/rope.rs:282-288 | the text of two chunk runs joined is the join of their texts |
| Ropes.FoldIsMetrics | src/rope/rope.rs:47-57 | the tree summary of the chunks is the byte length and newline count of their text |
| Ropes.ChunkBoundaries | src/rope/rope.rs:20-45 | every seam between chunks is a character boundary of the text |
| Ropes.AlignToBoundary | src/rope/rope.rs:30-33 | moving up past continuation bytes reaches the next boundary within 3 bytes, without passing a character |
| Ropes.SplitIntoChunks | src/rope/rope.rs:20-45 | the text is cut at boundaries into non-empty chunks that spell it exactly |
| Ropes.Rope.constructor | src/rope/rope.rs:13-17 | the new rope is valid and empty |
| Ropes.Rope.FromText | src/rope/rope.rs:20-45 | the rope spells exactly the given text |
| Ropes.Rope.Clone | src/rope/rope.rs:5-8 | the copy spells the same text |
| Ropes.Rope.Len | src/rope/rope.rs:47-49 | the length is the byte length of the text |
| Ropes.Rope.LineCount | src/rope/rope.rs:55-57 | the tree's line metric is the number of newlines |
| Ropes.Rope.IsEmpty | src/rope/rope.rs:51-53 | true exactly when the text is empty, that is `len() == 0` |
| Ropes.Rope.ToString | src/rope/rope.rs:282-288 | concatenating the chunks gives the text |
| Ropes.Rope.Line | src/rope/rope.rs:60-93 | the walk over the chunks returns `Line(text, k)` |
| Ropes.LineOfChunks | src/rope/rope.rs:60-93 | scanning chunk by chunk finds line k's content, or `None` past the last line |
| Ropes.Rope.LineToByte | src/rope/rope.rs:96-128 | the byte offset where line k starts; past the end, the text length |
| Ropes.LineToByteOfChunks | src/rope/rope.rs:96-128 | the chunk walk using newline positions returns `LineToByte(text, k)` |
| Ropes.Rope.ByteToLineCol | src/rope/rope.rs:132-186 | the line and the character column of the character holding byte b (clamped to the end) |
| Ropes.ByteToLineColOfChunks | src/rope/rope.rs:132-186 | the chunk walk returns `ByteToLineCol(text, b)` |
| Ropes.CountColumns | src/rope/rope.rs:154-168 | counting characters in the chunk up to the target advances the line/column as `LineCol` does |
| Ropes.ByteToLineColInside | src/rope/rope.rs:150-168 | when the target byte lies in the current chunk, the answer is the position after the chunk's characters before it |
| Ropes.Rope.SliceBytes | src/rope/rope.rs:190-234 | the bytes `[start, min(end, len))` of the text, empty when `start >= end` or past the end; a non-empty range must start and end on character boundaries |
| Ropes.SliceOfChunks | src/rope/rope.rs:190-234 | collecting each overlapping chunk's clipped piece gives the byte slice of the text |
| Ropes.Rope.LineByteRange | src/rope/rope.rs:238-279 | line k's start and the end of its content (before the newline), or `None` past the last line |
| Ropes.LineByteRangeOfChunks | src/rope/rope.rs:238-279 | the chunk walk returns `LineByteRange(text, k)` |
| Ropes.Rope.Insert | src/rope/rope.rs:291-306 | the text becomes `text[..pos] + inserted + text[pos..]`; inserting nothing changes nothing; above one megabyte it goes through the corrected splice of `Ropes.SpliceChunks`, so `pos == len()` appends where the source drops the text |
| Ropes.Rope.InsertOptimized | src/rope/rope.rs:309-380 | the large-file path with the end-of-text case corrected inserts the text at `pos` |
| Ropes.LocateInsert | src/rope/rope.rs:312-332 | the search finds the chunk containing `pos` and the offset within it, or the index past the last chunk |
| Ropes.SpliceChunks | src/rope/rope.rs:334-379 | splicing into the found chunk gives the text with the insertion, also when `pos` is the end of the text |
| Ropes.SpliceChunksAsWritten | src/rope/rope.rs:334-379 | as written: when the position is past the last chunk, the chunks come back unchanged and the inserted text is lost |
| Ropes.InsertAtEndChangesText | src/rope/rope.rs:362-377 | inserting non-empty text at the end must change the text, which the as-written splice does not do |
| Ropes.Rope.PushStr | tests/rope_tests.rs:26-31 | `push_str` appends: the new text is the old text followed by the argument |
| Ropes.Rope.Delete | src/rope/rope.rs:383-396 | the bytes `[start, end)` (clamped) are removed; an empty range changes nothing; a non-empty range must cut the text only at character boundaries (`DeleteAllowed`) |
| Ropes.Rope.DeleteOptimized | src/rope/rope.rs:398-437 | keeping each chunk's pieces outside the range removes exactly the bytes `[start, end)`, for ends that are character boundaries where they fall inside the text |
| Ropes.Rope.ChunkCount | src/rope/rope.rs:439-441 | the number of chunks, zero exactly when the text is empty |
| Edits.InsertedLength | src/rope/rope.rs:291-306 | insertion adds exactly the inserted bytes and newlines |
| Edits.DeletedLength | src/rope/rope.rs:383-396 | deletion between in-range boundaries removes exactly `end - start` bytes |
| Edits.DeleteUndoesInsert | src/rope/rope.rs:291-396 | deleting the range just inserted restores the text |
| Edits.DeleteUndoesNonEmptyInsert | src/rope/rope.rs:291-396 | the same for a non-empty insertion at a boundary, through the rope's own delete |
| Edits.InsertUndoesDelete | src/rope/rope.rs:291-396 | re-inserting the deleted bytes at `start` restores the text |
| Decimal.Digits | src/buffer/point.rs:38-40 | decimal digits of a number, never empty, without leading zeros |
| Decimal.ValueOfDigits | src/buffer/point.rs:38-40 | reading the digits back gives the number |
| Decimal.DigitsInjective | src/buffer/offset.rs:35-37 | distinct numbers print differently |
| Points.CmpNat | src/buffer/point.rs:29-34 | `usize::cmp`: `Less`, `Equal` or `Greater` exactly as the numbers compare |
| Points.Point.New | src/buffer/point.rs:13-15 | the point has the given row and column |
| Points.Point.Zero | src/buffer/point.rs:18-20 | the origin, at or below every point |
| Points.Point.Cmp | src/buffer/point.rs:23-34 | points compare by row, then by column; `Equal` exactly for equal points |
| Points.Point.Display | src/buffer/point.rs:37-40 | the `row+1:column+1` rendering parses back to the point |
| Points.DisplayRoundTrip | src/buffer/point.rs:37-40 | parsing the rendered 1-based form gives the 0-based point |
| Points.CmpAntisymmetric | src/buffer/point.rs:29-34 | comparing the other way round reverses the ordering |
| Points.LeTotalOrder | src/buffer/point.rs:23-34 | `<=` on points is reflexive, antisymmetric, transitive and total |
| Offsets.Offset.New | src/buffer/offset.rs:7-9 | the offset holds the given value |
| Offsets.Offset.Zero | src/buffer/offset.rs:12-14 | the zero offset, at or below every offset |
| Offsets.Offset.Value | src/buffer/offset.rs:17-19 | `Offset::new(o.value()) == o`: the two conversions are inverse |
| Offsets.Offset.Display | src/buffer/offset.rs:34-37 | the rendering is all digits and reads back as the value |
| Offsets.LeIsValueOrder | src/buffer/offset.rs:1-3 | the derived order on offsets is the order of their values, total and antisymmetric |
| Selections.Selection.New | src/editor/selection.rs:12-14 | the selection has the given ends |
| Selections.Selection.Cursor | src/editor/selection.rs:17-22 | a cursor is an empty selection at the point |
| Selections.Selection.Range | src/editor/selection.rs:30-36 | the two ends in order: the smaller first, and unchanged when already ordered |
| Transactions.InsertTransaction | src/history/transaction.rs:20-26 | an insert transaction records the text and both cursors |
| Transactions.DeleteTransaction | src/history/transaction.rs:28-34 | a delete transaction records the removed text and both cursors |
| Transactions.ReplaceTransaction | src/history/transaction.rs:36-47 | a replace transaction records the old and new text and both cursors |
| Histories.RedoUndoes | src/history/history.rs:44-73 | redo after undo restores the history and hands back the same transaction |
| Histories.UndoUndoesRedo | src/history/history.rs:44-73 | undo after redo restores the history and hands back the same transaction |
| Histories.UndoAfterPush | src/history/history.rs:32-57 | undo right after a push returns to the previous state with only the pushed snapshot redoable |
| Histories.OneUndoPerPush | src/history/history.rs:32-57 | two pushes need two undos: the first undo goes back one push only |
| Histories.StackSizesKept | src/history/history.rs:44-73 | undo and redo move one entry between the stacks and lose none |
| Histories.SnapshotsKept | src/history/history.rs:32-73 | undo and redo keep the set of snapshots held; push adds at most the new one |
| Histories.HeldInKept | src/history/history.rs:32-73 | every snapshot held stays among the known buffers across push, undo and redo |
| Histories.History.constructor | src/history/history.rs:18-24 | a new history holds the buffer with both stacks empty |
| Histories.History.Current | src/history/history.rs:27-29 | the current buffer is one of the snapshots held |
| Histories.History.Push | src/history/history.rs:32-41 | the current buffer and transaction go onto the undo stack, the redo stack is cleared, and the new buffer is current |
| Histories.History.Undo | src/history/history.rs:44-57 | moves the top undo entry to current, saving the current one for redo; `None` with an empty undo stack |
| Histories.History.Redo | src/history/history.rs:60-73 | moves the top redo entry to current, saving the current one for undo; `None` with an empty redo stack |
| Histories.History.CanUndo | src/history/history.rs:76-78 | true exactly when undo would return a transaction |
| Histories.History.CanRedo | src/history/history.rs:81-83 | true exactly when redo would return a transaction |
| LineCaches.SaturatingSub | src/buffer/line_cache.rs:98-104 | `saturating_sub`: the difference, or 0 when it would be negative |
| LineCaches.LinesFrom | src/buffer/buffer.rs:68 | the collected range `a..b` holds exactly the lines from a below b |
| LineCaches.InvalidationKeepsCorrect | src/buffer/line_cache.rs:237-247 | after an edit, clearing the slots of every line whose start may have moved leaves only correct cached offsets |
| LineCaches.CountSome | src/buffer/line_cache.rs:397-409 | the number of filled slots, zero exactly when none is filled |
| LineCaches.TotalPadding | src/buffer/line_cache.rs:86-116 | the padding is the base padding plus the velocity padding, capped |
| LineCaches.PredictiveCache.constructor | src/buffer/line_cache.rs:44-52 | all ranges are zero, the direction is stationary and there is no velocity padding |
| LineCaches.PredictiveCache.Clone | src/buffer/buffer.rs:9-15 | the copy `Buffer`'s derived `Clone` needs of its `predictive_cache` field: a fresh calculator with the same fields |
| LineCaches.PredictiveCache.UpdateScrollPrediction | src/buffer/line_cache.rs:55-83 | records the visible range, direction and padding, and sets the precache range from them |
| LineCaches.PredictiveCache.CalculatePrecalcRange | src/buffer/line_cache.rs:86-116 | the range contains the visible one; the padding past the end is doubled exactly when scrolling down, and the padding before the start (saturating at line 0) exactly when scrolling up |
| LineCaches.PredictiveCache.GetPrecalcRange | src/buffer/line_cache.rs:119-123 | the precache range clamped to the line count |
| LineCaches.KeptSlotsCorrect | src/buffer/line_cache.rs:352-366 | slots copied from a correct cache are correct for the same text |
| LineCaches.LineOffsetCache.constructor | src/buffer/line_cache.rs:135-145 | an empty window over the given number of lines, version and counters zero |
| LineCaches.LineOffsetCache.Clone | src/buffer/line_cache.rs:9-18 | the copy has the same fields |
| LineCaches.LineOffsetCache.GetCachedOffset | src/buffer/line_cache.rs:297-304 | the slot of a line inside the window, `None` outside it |
| LineCaches.LineOffsetCache.IsCached | src/buffer/line_cache.rs:292-295 | in a valid cache, true exactly for the lines from the window's start that have a slot |
| LineCaches.LineOffsetCache.CachedOffsetIsCorrect | src/buffer/line_cache.rs:297-304 | in a correct cache a filled slot is where the line starts |
| LineCaches.LineOffsetCache.ExpandRangeForCaching | src/buffer/line_cache.rs:346-350 | the range padded by 200 lines on both sides, clamped to the line count |
| LineCaches.LineOffsetCache.ShouldExpandCache | src/buffer/line_cache.rs:314-322 | always for an empty window; never for a line inside a non-empty window or at least 200 lines away from it |
| LineCaches.LineOffsetCache.ExpandRangeToInclude | src/buffer/line_cache.rs:324-344 | a range containing the line and the current window, within the line count |
| LineCaches.LineOffsetCache.EnsureRangeCached | src/buffer/line_cache.rs:180-207 | a range already covered changes nothing; otherwise the window becomes the padded range, every slot holds its line's start from the rope (`None` past the last line), the version is bumped and correctness kept |
| LineCaches.LineOffsetCache.EnsureRangeCachedImpl | src/buffer/line_cache.rs:352-366 | the window moves to the range, keeping the slots it already held |
| LineCaches.LineOffsetCache.CopiedSlots | src/buffer/line_cache.rs:355-363 | the new slots are the old cached answers for each line of the range |
| LineCaches.LineOffsetCache.GetOffsetsZeroAlloc | src/buffer/line_cache.rs:147-177 | one offset per requested line, each counted as a hit or a miss, and each the line's start when the cache was correct; the window is either as before or completely filled from the rope |
| LineCaches.LineOffsetCache.OffsetOf | src/buffer/line_cache.rs:153-175 | a hit returns the cached offset and keeps the window; a miss computes `line_to_byte` and leaves the window that `cache_miss_calculate` gives |
| LineCaches.LineOffsetCache.CacheMissCalculate | src/buffer/line_cache.rs:306-312 | when the line is near the window, the window becomes what `ensure_range_cached` gives for `expand_range_to_include(line)`; otherwise nothing changes; correctness is kept |
| LineCaches.LineOffsetCache.InvalidateRangeWithShift | src/buffer/line_cache.rs:210-235 | inside the window every slot from the start line on is cleared and the version bumped; outside it nothing changes |
| LineCaches.LineOffsetCache.InvalidateLines | src/buffer/line_cache.rs:237-247 | exactly the slots of the listed lines are cleared and the version bumped |
| LineCaches.LineOffsetCache.InvalidateAll | src/buffer/line_cache.rs:250-254 | the window becomes empty and the version is bumped |
| LineCaches.LineOffsetCache.PredictiveEnsureCached | src/buffer/line_cache.rs:256-268 | without precaching or with an empty precache range nothing changes; otherwise the window becomes what `ensure_range_cached` gives for the precache range; correctness is kept |
| LineCaches.LineOffsetCache.SmartEviction | src/buffer/line_cache.rs:270-280 | a window over the limit is emptied and the version bumped; otherwise nothing changes |
| LineCaches.LineOffsetCache.UpdateLineCount | src/buffer/line_cache.rs:369-388 | the window is cut back to the new line count, emptied when it starts past it, and stays correct; the new window is `ResizedWindow` of the old one |
| LineCaches.ResizedWindow | src/buffer/line_cache.rs:369-388 | the resized window ends within both the new count and the old end, its slots are a prefix of the old ones, it is unchanged while the old end fits, and it keeps its start unless it started past the count (then `0..n` and empty) |
| LineCaches.ForgetFromResized | src/buffer/buffer.rs:66-80 | forgetting the lines from `line` to the line count and then resizing: slots before `line` keep their entries, later ones are empty, and the start is kept unless the window was emptied |
| LineCaches.LineOffsetCache.SetCacheStats | src/buffer/line_cache.rs:391-394 | only the two counters change |
| LineCaches.LineOffsetCache.Stats | src/buffer/line_cache.rs:397-409 | the counters, the filled-slot count and the window capacity |
| LineCaches.FillSlots | src/buffer/line_cache.rs:195-205 | each slot of the range holds its line's start, `None` past the last line |
| Buffers.PointRoundTrip | src/buffer/buffer.rs:149-170 | a point on an existing line within its length maps to an offset and back to itself |
| Buffers.OffsetRoundTrip | src/buffer/buffer.rs:149-170 | a boundary offset maps to a point and back to itself |
| Buffers.PointOffsetIsBoundary | src/buffer/buffer.rs:149-164 | every point maps to a character boundary |
| Buffers.ColumnClampsToLineEnd | src/buffer/buffer.rs:153-161 | a column past the line's end maps to the end of the line's content |
| Buffers.MissingRowClampsToEnd | src/buffer/buffer.rs:150-163 | a row past the last line maps to the end of the text |
| Buffers.LinesUpToSplit | src/buffer/buffer.rs:172-180 | the lines gathered up to i are the first i split pieces |
| Buffers.LinesUpToAll | src/buffer/buffer.rs:172-180 | gathering every line gives the pieces with an empty tail dropped |
| Buffers.ExistingLines | src/buffer/buffer.rs:172-180 | the loop over `line(i)` collects `LinesUpTo(text, n)` |
| Buffers.InsertKeepsCache | src/buffer/buffer.rs:59-81 | clearing every line from the edited line on keeps the cache correct after an insertion |
| Buffers.DeleteKeepsCache | src/buffer/buffer.rs:83-107 | the same after a deletion |
| Buffers.CacheSurvivesEdit | src/buffer/buffer.rs:59-107 | lines before the edited one keep their starts, so their slots stay correct |
| Buffers.InvalidatedLinesAsWritten | src/buffer/buffer.rs:66-73 | as written: a single-line edit invalidates only the edited line |
| Buffers.SingleLineInvalidationIsStale | src/buffer/buffer.rs:66-73 | inserting one character on line 0 of `a\nb\nc` moves line 1's start from 2 to 3, but its slot survives |
| Buffers.SingleLineDeleteIsStale | src/buffer/buffer.rs:89-98 | deleting byte 0 of `ab\nc` starts and ends on line 0, so only line 0 is forgotten; line 1's start moves from 3 to 2, but its slot survives |
| Buffers.Buffer.constructor | src/buffer/buffer.rs:18-25 | a new buffer is valid and empty, and its cache window is empty |
| Buffers.Buffer.FromText | src/buffer/buffer.rs:27-37 | the buffer holds exactly the text; its cache window is empty (`0..0`, no slots) and sized to the text's newline count |
| Buffers.Buffer.Of | src/buffer/buffer.rs:10-15 | a buffer assembled from a rope and a cache that is correct for it is valid |
| Buffers.Buffer.Clone | src/buffer/buffer.rs:9-15 | the copy shares the rope and has its own caches |
| Buffers.Buffer.Len | src/buffer/buffer.rs:39-41 | the byte length of the text |
| Buffers.Buffer.IsEmpty | src/buffer/buffer.rs:43-45 | true exactly when the text is empty |
| Buffers.Buffer.LineCount | src/buffer/buffer.rs:47-53 | one more than the number of newlines, that is the number of split pieces |
| Buffers.Buffer.ToString | src/buffer/buffer.rs:55-57 | the text |
| Buffers.Buffer.Insert | src/buffer/buffer.rs:59-81 | the text gains the insertion at the offset; the new cache is `Refreshed`: every line from the edited one on is forgotten, then the window is resized to the new line count, with the version moved on twice and the counters kept. So the window keeps its start unless it was emptied, slots of lines before the edited one are unchanged, later slots are empty, and the cache stays correct. This is the corrected invalidation of `Buffers.InsertKeepsCache`; the source forgets only the edited line |
| Buffers.Buffer.Delete | src/buffer/buffer.rs:83-107 | the bytes `[start, end)` are removed; the new cache is `Refreshed` from the start line on, as for insert: the window keeps its start unless emptied, slots before the start line are unchanged, later slots are empty, and the cache stays correct. This is the corrected invalidation of `Buffers.DeleteKeepsCache`; the source forgets only the start line when both ends share it |
| Buffers.Buffer.Line | src/buffer/buffer.rs:110-112 | `Line(text, k)` |
| Buffers.Buffer.GetLineOffsetsBatch | src/buffer/buffer.rs:116-121 | one offset per requested line, each the line's start |
| Buffers.Buffer.EnsureRangeCached | src/buffer/buffer.rs:124-126 | the text is unchanged, the buffer stays valid, and the cache window is `WindowEnsured`: kept when the range lies inside it, else the padded range filled from the text |
| Buffers.Buffer.UpdateScrollPrediction | src/buffer/buffer.rs:129-146 | the prediction records the visible range and its precache range; unless evicted, the cache window is what `predictive_ensure_cached` gives for that range; the cache is evicted above 10000 lines |
| Buffers.Buffer.PointToOffset | src/buffer/buffer.rs:149-164 | line start plus the bytes of the first `column` characters of the line |
| Buffers.Buffer.OffsetToPoint | src/buffer/buffer.rs:167-170 | the line and character column of the offset |
| Buffers.Buffer.Lines | src/buffer/buffer.rs:172-180 | the lines, with an empty tail dropped |
| Buffers.Buffer.LineByteRange | src/buffer/buffer.rs:183-185 | `LineByteRange(text, k)` |
| Buffers.Buffer.SliceBytes | src/buffer/buffer.rs:188-190 | the clamped byte slice of the text, for a range whose ends are character boundaries |
| SimpleCaches.Lookup | src/buffer/line_cache_simple.rs:24-32 | a lookup answers `Some` exactly for a stored line, with its stored offset |
| SimpleCaches.LookupAfterStore | src/buffer/line_cache_simple.rs:35-37 | after storing, the line answers the new offset and other lines are unaffected |
| SimpleCaches.LookupAfterRemove | src/buffer/line_cache_simple.rs:40-42 | after removing, the line answers `None` and other lines are unaffected |
| SimpleCaches.LookupAfterKeptBelow | src/buffer/line_cache_simple.rs:45-47 | after `invalidate_from(s)` only lines below s answer |
| SimpleCaches.LookupAfterRemovedRange | src/buffer/line_cache_simple.rs:50-54 | after `invalidate_range(s, e)` lines s to e, both included, answer `None` and the rest are unaffected |
| SimpleCaches.RemovedRangeToEndIsKeptBelow | src/buffer/line_cache_simple.rs:45-54 | removing a range that reaches past every stored line is `invalidate_from` at its start |
| SimpleCaches.RemovedSpanStep | src/buffer/line_cache_simple.rs:51-53 | removing one more line extends the removed span |
| SimpleCaches.LineCache.constructor | src/buffer/line_cache_simple.rs:15-21 | nothing cached, both counters zero |
| SimpleCaches.LineCache.Get | src/buffer/line_cache_simple.rs:24-32 | the stored offset, with a hit counted, or `None` with a miss counted; the map is unchanged |
| SimpleCaches.LineCache.Insert | src/buffer/line_cache_simple.rs:35-37 | the line maps to the offset |
| SimpleCaches.LineCache.InvalidateLine | src/buffer/line_cache_simple.rs:40-42 | the line's entry is removed |
| SimpleCaches.LineCache.InvalidateFrom | src/buffer/line_cache_simple.rs:45-47 | only entries for lines below the start are kept |
| SimpleCaches.LineCache.InvalidateRange | src/buffer/line_cache_simple.rs:50-54 | the entries of lines start to end, both included, are removed one by one |
| SimpleCaches.LineCache.Clear | src/buffer/line_cache_simple.rs:57-59 | the map becomes empty and the counters are kept |
| SimpleCaches.LineCache.Size | src/buffer/line_cache_simple.rs:73-75 | the number of cached lines |
| SimpleCaches.LineCache.LimitSize | src/buffer/line_cache_simple.rs:78-83 | more entries than the limit empties the cache; otherwise nothing changes |
| LineIndexes.NewlineEndsBounds | src/buffer/line_index.rs:64-78 | scanning finds one start per newline, ascending, after the base offset and within the scanned bytes |
| LineIndexes.NewlineEndsAreLineStarts | src/buffer/line_index.rs:64-78 | the k-th start found is where `line_to_byte` puts line k+1, shifted by the base |
| LineIndexes.NewlineEndsConcat | src/buffer/line_index.rs:97-103 | indexing two chunks in turn records what indexing them as one text records |
| LineIndexes.AppendAscending | src/buffer/line_index.rs:97-103 | appending the starts of a later chunk keeps the recorded starts ascending |
| LineIndexes.LineIndex.constructor | src/buffer/line_index.rs:16-22 | line 0 starts at 0, the file size is recorded and the index is incomplete |
| LineIndexes.LineIndex.KnownLineCount | src/buffer/line_index.rs:25-27 | the number of recorded line starts |
| LineIndexes.LineIndex.IsFullyIndexed | src/buffer/line_index.rs:30-32 | whether the index has been marked complete |
| LineIndexes.LineIndex.AddLine | src/buffer/line_index.rs:35-37 | appends one start |
| LineIndexes.LineIndex.MarkComplete | src/buffer/line_index.rs:40-42 | marks the index complete |
| LineIndexes.LineIndex.LineOffset | src/buffer/line_index.rs:46-48 | the start of a known line, `None` exactly past the known lines |
| LineIndexes.LineIndex.LineRange | src/buffer/line_index.rs:52-60 | a known line runs to the next known start, or to the file size after the last one |
| LineIndexes.LineIndex.IndexRange | src/buffer/line_index.rs:64-78 | appends the start after every newline of the text and marks the index complete once the file size is reached |
| LineIndexes.ProgressiveIndexer.constructor | src/buffer/line_index.rs:88-93 | a fresh index with nothing fed |
| LineIndexes.ProgressiveIndexer.IndexChunk | src/buffer/line_index.rs:97-103 | the chunk's starts are appended after the bytes fed so far, the count advances by its byte length, and it returns whether the index is complete |
| LineIndexes.ProgressiveIndexer.IsComplete | src/buffer/line_index.rs:120-122 | the index's completeness flag |
| Editors.RoundTripAtPrefix | src/buffer/buffer.rs:149-170 | an offset at a character boundary survives the trip to a point and back |
| Editors.CursorAfterInsert | src/editor/editor.rs:50-67 | after typing, the cursor's point maps back to just after the inserted text |
| Editors.CursorAfterDelete | src/editor/editor.rs:70-104 | after a deletion, the cursor's point maps back to the deletion's start |
| Editors.LineStartIsLineToByte | src/editor/editor.rs:215-218 | column 0 of a row is where `line_to_byte` puts the row |
| Editors.LineEndIsContentEnd | src/editor/editor.rs:221-226 | moving to the line end places the cursor at the end of the line's content |
| Editors.LeftFromLineStart | src/editor/editor.rs:159-169 | moving left from column 0 goes to the end of the previous line |
| Editors.RightFromLineEnd | src/editor/editor.rs:172-182 | moving right from a line's end goes to the start of the next line |
| Editors.VerticalMoves | src/editor/editor.rs:185-212 | up and down move by one row within the document, never widening the column, and stop at the first and last rows |
| Editors.Editor.constructor | src/editor/editor.rs:14-19 | an empty editor with the cursor at the origin and no history |
| Editors.Editor.FromText | src/editor/editor.rs:22-27 | an editor on the text with the cursor at the origin and no history |
| Editors.Editor.Cursor | src/editor/editor.rs:35-37 | the cursor is the selection's end |
| Editors.Editor.CurrentBuffer | src/editor/editor.rs:30-32 | the buffer is the history's current one |
| Editors.Editor.SetCursor | src/editor/editor.rs:40-42 | the selection becomes a cursor at the point |
| Editors.Editor.Insert | src/editor/editor.rs:50-67 | the text is inserted at the cursor's offset, the cursor moves after it, and one insert transaction is pushed. Above one megabyte this follows the rope's corrected splice, so text typed at the very end is appended where the source drops it (see the `Editors.Editor.Insert` line under "## Left out") |
| Editors.Editor.Backspace | src/editor/editor.rs:70-104 | at the origin or offset 0 nothing changes; otherwise the byte before the cursor is removed, the cursor moves back and a delete is pushed |
| Editors.Editor.Delete | src/editor/editor.rs:107-132 | at the end nothing changes; otherwise the byte at the cursor is removed, the cursor stays and a delete is pushed |
| Editors.InsertThenUndo | src/editor/editor.rs:50-67 | undo straight after `insert` restores the exact previous text and cursor |
| Editors.BackspaceThenUndo | src/editor/editor.rs:70-104 | undo straight after a `backspace` that removed a byte restores the exact previous text and cursor |
| Editors.DeleteThenUndo | src/editor/editor.rs:107-132 | undo straight after a `delete` that removed a byte restores the exact previous text and cursor |
| Editors.Editor.Undo | src/editor/editor.rs:135-139 | the history undoes one step and the cursor goes to the transaction's cursor before |
| Editors.Editor.Redo | src/editor/editor.rs:142-146 | the history redoes one step and the cursor goes to the transaction's cursor after |
| Editors.Editor.CanUndo | src/editor/editor.rs:149-151 | true exactly when there is a step to undo |
| Editors.Editor.CanRedo | src/editor/editor.rs:154-156 | true exactly when there is a step to redo |
| Editors.Editor.MoveLeft | src/editor/editor.rs:159-169 | the cursor moves as `MovedLeft` says, and the text and history are unchanged |
| Editors.Editor.MoveRight | src/editor/editor.rs:172-182 | the cursor moves as `MovedRight` says |
| Editors.Editor.MoveUp | src/editor/editor.rs:185-197 | the cursor moves as `MovedUp` says |
| Editors.Editor.MoveDown | src/editor/editor.rs:200-212 | the cursor moves as `MovedDown` says |
| Editors.Editor.MoveToLineStart | src/editor/editor.rs:215-218 | the cursor goes to column 0 of its row |
| Editors.Editor.MoveToLineEnd | src/editor/editor.rs:221-226 | the cursor goes to the last column of its row |
| Editors.Editor.CurrentText | src/editor/editor.rs:229-231 | the text of the current buffer |
| Editors.Editor.LineCount | src/editor/editor.rs:234-236 | one more than the number of newlines |
| Indent.TrimStart | src/syntax/indent.rs:154 | a suffix of the line, with only whitespace removed and not starting with whitespace |
| Indent.TrimEnd | src/syntax/indent.rs:154 | a prefix of the line, with only whitespace removed and not ending with whitespace |
| Indent.TrimMeaning | src/syntax/indent.rs:154 | `trim` is a slice of the line with whitespace only outside it and no whitespace at its ends |
| Indent.GetLineIndent | src/syntax/indent.rs:214-218 | the longest prefix of whitespace other than `'\n'` |
| Indent.BracketsConcat | src/syntax/indent.rs:180-186 | bracket counts add under concatenation |
| Indent.StartsWithAny | src/syntax/indent.rs:204-209 | true exactly when the text starts with one of the keywords |
| Indent.ShouldDecreaseIndentMeaning | src/syntax/indent.rs:197-212 | dedent exactly when the trimmed line starts with a closing bracket or one of `else`, `elif`, `except`, `finally`, `case` |
| Indent.ShouldIncreaseIndentByText | src/syntax/indent.rs:152-195 | for other node kinds: a line ending in an opener indents exactly when opens outnumber closes; one ending in `:` exactly when it is not a `#` comment; otherwise no indent |
| Indent.Dedented | src/syntax/indent.rs:116-121 | the indent with its last 4 bytes cut, or empty when it is shorter than 4 bytes |
| Indent.DedentedAscii | src/syntax/indent.rs:116-121 | for an ASCII indent, dedenting drops exactly 4 characters |
| Indent.TreeBasedIndent | src/syntax/indent.rs:88-128 | empty past the last line; defined for every line whose dedent cut falls on a character boundary, and for every line that is not dedented |
| Indent.IndentForNodeCases | src/syntax/indent.rs:114-127 | on the line itself: dedent wins over indent; indent appends 4 spaces; otherwise the line's indent is kept |
| Indent.TreeBasedIndentCases | src/syntax/indent.rs:88-128 | dedent wins over indent; indent appends 4 spaces; otherwise the line's indent is kept |
| Indent.FallbackForLineMeaning | src/syntax/indent.rs:245-268 | the indent plus 4 spaces when opens outnumber closes or the line ends in `:`, otherwise the indent; always an extension of it made of indent characters |
| Indent.FallbackIndent | src/syntax/indent.rs:245-268 | empty past the last line, otherwise the fallback for the cursor's line of `str::lines` |
| Indent.FallbackIndentWithRope | src/syntax/indent.rs:221-242 | empty when the rope has no such line, otherwise the fallback for `rope.line(k)` |
| Indent.StrLineIsLine | src/syntax/indent.rs:95 | `str::lines` has line k exactly when `line(k)` does, the same line with a `'\r'` before its newline dropped |
| Indent.FallbacksAgree | src/syntax/indent.rs:221-268 | on text without `'\r'`, the str-based and rope-based fallbacks give the same indent |

## Left out

- Floating point: `CacheStats::hit_rate`, `LineCache::stats`'s rate, `ProgressiveIndexer::progress`, and the float scroll velocity in `update_scroll_prediction` are not modelled. The velocity enters as the natural number of padding lines it yields.
- `PredictiveCache::should_precache` reads the clock. Its answer is a `bool` parameter of the methods that use it.
- `memory_usage`, `optimize_memory` (shrinking vector capacity) and `ReusableBuffer` concern allocation only and have no observable effect on contents. `ReusableBuffer` also derives only `Debug` (line_cache.rs:36-37), so the `Clone` that `Buffer`'s derive would need of it is left out with it.
- The debug `println!` in `invalidate_range_with_shift` is output only.
- Integer widths: `usize` and `u64` are unbounded naturals; overflow is not modelled.
- `Arc` sharing and `Arc::make_mut` are value semantics here. The rope a buffer holds is never mutated while shared.
- `calculate_indent` and `calculate_indent_with_rope` are not modelled: they detect the language, slice a context window and run the tree-sitter parser. The parser is external code.
- `find_node_at_position` is not modelled; it walks the tree-sitter tree. The node kind it would find is a parameter of `Indent.TreeBasedIndent`.
- The `byte_offset` that `tree_based_indent` computes only feeds `find_node_at_position`, so it is left out with it.
- `Display` for `Rope` and `Buffer` is `to_string`, which is modelled. `Default` impls are the constructors.
- The GUI, terminal UI, file I/O, formatter and syntax highlighter are not part of this model.
- Ropes.Rope.SliceBytes: requires a non-empty range to start and end (after clamping) on character boundaries, since `&chunk_text[slice_start..slice_end]` (rope.rs:229) panics otherwise; the panic is not modelled.
- Buffers.Buffer.SliceBytes: the same requires as `Ropes.Rope.SliceBytes`, whose slice it returns.
- Chunks.Chunk.SplitAt: requires `pos` to be a character boundary within the text, since `str::split_at` panics otherwise.
- Chunks.Chunk.Slice: requires `start <= end` and both to be character boundaries within the text, since `&text[start..end]` panics otherwise.
- LineCaches.LineOffsetCache.GetOffsetsZeroAlloc: states that the window afterwards is either unchanged or completely filled from the rope, not which window a given sequence of misses leaves; each single step is stated exactly on `LineCaches.LineOffsetCache.OffsetOf`.
- Buffers.Buffer.UpdateScrollPrediction: states the precached window only when the cache was not evicted; after an eviction it states only that the slots are empty.
- Indent.Dedented: requires the cut 4 bytes before the indent's end to fall on a character boundary, since the Rust slice panics otherwise.
- Editors.Editor.Insert: inherits the corrected splice of `Ropes.Rope.Insert`. In a document over one megabyte, text inserted with the cursor at the very end is appended by the model, while the source (editor.rs:56 calling rope.rs:362-377) loses it; the model does not describe that loss.
- Editors.Editor.Backspace: requires the byte range it deletes to fall on character boundaries, since `String::drain` panics otherwise.
- Editors.Editor.Delete: requires the byte range it deletes to fall on character boundaries, for the same reason.
- Ropes.Rope.Insert: requires a character boundary at the position when the text is non-empty. Below one megabyte `String::insert_str` panics otherwise. Above it, a position past the end does not panic: the search loop (rope.rs:312-332) ends with the chunk index equal to the chunk count and the text is silently dropped; the requires excludes that input too, and the model does not describe it. Above one megabyte the model also follows the corrected splice (`Ropes.SpliceChunks`), so it appends at `pos == len()` where the source loses the text.
- Ropes.Rope.Delete: requires, for a non-empty range, both ends to be character boundaries within the text below one megabyte (`String::drain` panics otherwise) and boundaries wherever they fall inside the text above it (the chunk slices panic otherwise); the panics are not modelled.
- Ropes.Rope.DeleteOptimized: requires `start` and `end` to be character boundaries where they fall inside the text, since `&chunk_text[..keep_start]` and `&chunk_text[keep_end..]` panic otherwise; the panic is not modelled.
- Buffers.Buffer.Insert: requires a character boundary at the offset for a non-empty text, as `Ropes.Rope.Insert` does. It forgets every cached line from the edited one on, the corrected invalidation; the source forgets only the edited line when the text has no newline (see Findings), and the model does not keep that stale cache.
- Buffers.Buffer.Delete: requires `DeleteAllowed`, as `Ropes.Rope.Delete` does. It forgets every cached line from the start line on, the corrected invalidation; the source forgets only the start line when both ends lie on it (see Findings), and the model does not keep that stale cache.
- Editors.BackspaceThenUndo and Editors.DeleteThenUndo: state the round trip only when the edit removed a byte; when it changed nothing, the undo takes back an earlier step.

## Findings

| source | as written | input that shows it | evidently intended | confidence | as-written member | corrected member |
|---|---|---|---|---|---|---|
| src/rope/rope.rs:362-377 | when `pos` equals the text length, no chunk index matches `insert_chunk_idx`, so the inserted text is never pushed | a rope over 1 MB, `insert(len(), "x")`: the text is unchanged | append the text after the last chunk | not executed | Ropes.SpliceChunksAsWritten | Ropes.SpliceChunks |
| src/buffer/buffer.rs:66-73 | an insertion without a newline invalidates only its own line, but later lines' starts shift by the inserted bytes | text `a\nb\nc` with lines 0 and 1 cached, insert `x` at offset 0: line 1's cached start stays 2, but the line now starts at 3 | invalidate from the edited line on | not executed | Buffers.SingleLineInvalidationIsStale | Buffers.InsertKeepsCache |
| src/buffer/buffer.rs:89-98 | a deletion whose ends lie on the same line invalidates only that line, but later lines' starts shift back by the deleted bytes | text `ab\nc` with lines 0 and 1 cached, delete bytes `[0, 1)`: line 1's cached start stays 3, but the line now starts at 2 | invalidate from the start line on | not executed | Buffers.SingleLineDeleteIsStale | Buffers.DeleteKeepsCache |
