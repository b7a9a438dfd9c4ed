# Heynote note blocks

This project models the block core of Heynote's CodeMirror extension,
`heynote-codemirror/src/note-block.js`. A Heynote buffer is a sequence of notes. Each note
starts with a delimiter line, and the content that follows runs up to the next
delimiter. The extension does the following:

- It indexes the syntax tree into a list of blocks, each a pair of a delimiter range and a content range (`getBlocks`).
- It caches that list per editor state and re-indexes only on document changes (`blockState`).
- It builds the following from the list:
  - the delimiter replacement widgets (`decorate`);
  - the atomic ranges for cursor motion (`atomicRanges`);
  - the alternating background bands of the blocks on screen (`markers`);
  - the per-block relative line numbers in the gutter (`formatNumber`).
- It guards the first delimiter with two filters:
  - a change filter that keeps ordinary edits out of `[0, P]`;
  - a transaction filter that moves every selection endpoint below `P` up to `P`.
  
  Here `P` is the published end of the first delimiter.

The modules follow the parts of the file:

| file | module | part of `note-block.js` |
|---|---|---|
| `wrappers.dfy` | `Wrappers` | `Option`, which stands for JavaScript's `undefined` |
| `note_tree.dfy` | `NoteTree` | the syntax tree, `getBlocks`'s walk, and what it records |
| `block_state.dfy` | `BlockStateField` | `blockState` and the module-level `firstBlockDelimiterSize` |
| `delimiter_decorations.dfy` | `DelimiterDecorations` | `decorate` and `noteBlockStartField` |
| `atomic_ranges.dfy` | `AtomicRanges` | `atomicRanges` and the `atomicNoteBlock` plugin |
| `block_layer.dfy` | `BlockLayer` | the background layer's `markers` and `update` |
| `first_block_guards.dfy` | `FirstBlockGuards` | `preventFirstBlockFromBeingDeleted` and `preventSelectionBeforeFirstBlock` |
| `line_numbers.dfy` | `LineNumbers` | `formatNumber` |

The modelling choices are these:

- The walk is specified by the recursive functions `WalkSeq`/`EnterFirst` over sibling lists (`Blocks(root) == WalkSeq([root])`).
- The parser's cursor walk is the method `VisitSiblings`. It runs a loop along each sibling list, recurses into accepted nodes, and is proved equal to that specification.
- The state that the source updates in place is modelled as classes:
  - the cached block list and the published size are `BlockState`;
  - the decoration field is `DecorationField`;
  - the plugin is `AtomicNoteBlock`;
  - the layer is `BackgroundLayer`.
- The selection ranges that the transaction filter overwrites are an array of values.

## Model

| member | source | states |
|---|---|---|
| `NoteTree.VisitSiblings` | heynote-codemirror/src/note-block.js:16-37 | walking a sibling list with the enter callback (descend into Document/Note, record a delimiter with its next sibling, skip the rest) yields exactly the pre-order block list `WalkSeq` |
| `NoteTree.IterateBlocks` | heynote-codemirror/src/note-block.js:14-39 | the blocks pushed while iterating the whole tree are `Blocks(root)` |
| `NoteTree.WalkStep` | heynote-codemirror/src/note-block.js:17-34 | one step of the walk: the first node's verdict (descend, record, skip) decides what it adds, before its siblings' blocks |
| `NoteTree.WalkSeqSound` | heynote-codemirror/src/note-block.js:18-31 | every block recorded comes from a delimiter reached through Document/Note nodes only, paired with that delimiter's next sibling |
| `NoteTree.EnterFirstSound` | heynote-codemirror/src/note-block.js:18-31 | the same for the blocks recorded when entering one node |
| `NoteTree.WalkSeqComplete` | heynote-codemirror/src/note-block.js:18-32 | every delimiter reachable through Document/Note descent has its block (its own range, its next sibling's range) in the list |
| `NoteTree.ShiftRecorded` | heynote-codemirror/src/note-block.js:18-32 | a delimiter reached among the later siblings is still reached from the whole sibling list |
| `NoteTree.UnshiftRecorded` | heynote-codemirror/src/note-block.js:18-32 | a path to a delimiter that starts past the first sibling is a path in the remaining siblings |
| `NoteTree.BlocksAreReachedDelimiters` | heynote-codemirror/src/note-block.js:14-39 | a block is in `getBlocks`'s list if and only if it is the (delimiter, next sibling) pair of a delimiter reached through Document/Note descent |
| `NoteTree.PruneSeq` | heynote-codemirror/src/note-block.js:18-34 | cutting the subtrees of every node that is not Document/Note keeps each node's kind and range |
| `NoteTree.PruneKeepsWalk` | heynote-codemirror/src/note-block.js:18-34 | cutting those subtrees leaves the recorded blocks unchanged |
| `NoteTree.UndescendedSubtreesIgnored` | heynote-codemirror/src/note-block.js:18-34 | two trees that differ only below delimiter and Other nodes give the same block list: delimiters nested there produce no block |
| `NoteTree.PositionedWithin` | heynote-codemirror/src/note-block.js:21-30 | in a positioned sibling list every node lies within the parent's range |
| `NoteTree.ConcatOrdered` | heynote-codemirror/src/note-block.js:22-31 | the blocks of an earlier node followed by those of later siblings stay in order |
| `NoteTree.WalkSeqOrdered` | heynote-codemirror/src/note-block.js:16-37 | for positioned trees the blocks recorded from a sibling list lie within its bounds, with delimiters in document order |
| `NoteTree.EnterFirstOrdered` | heynote-codemirror/src/note-block.js:16-37 | the blocks recorded when entering one node lie within the sibling list's bounds, in order, and their delimiters end within that node |
| `NoteTree.BlocksInDocumentOrder` | heynote-codemirror/src/note-block.js:14-39 | for a positioned tree every block lies in the document, its delimiter ends where or before its content starts, and delimiters come in document order without overlapping (traversal order is document order) |
| `BlockStateField.BlockState.GetBlocks` | heynote-codemirror/src/note-block.js:14-40 | returns the block list and publishes `blocks[0].delimiter.to`, or undefined when the list is empty |
| `BlockStateField.BlockState.Create` | heynote-codemirror/src/note-block.js:43-45 | the initial state holds the indexed block list and the matching published size |
| `BlockStateField.BlockState.Update` | heynote-codemirror/src/note-block.js:46-54 | a document change re-indexes the new tree; any other transaction keeps the list and the published size unchanged; the size always matches the list |
| `DelimiterDecorations.ReplacedSpan` | heynote-codemirror/src/note-block.js:89-92 | the widget hides exactly the delimiter's positions except the last and, unless the delimiter starts the document, the first; it starts at 0 iff the delimiter does |
| `DelimiterDecorations.Decorations` | heynote-codemirror/src/note-block.js:80-95 | one replacement per block, in block order (none for no blocks) |
| `DelimiterDecorations.Decorate` | heynote-codemirror/src/note-block.js:77-96 | the widgets pushed are one `[from == 0 ? 0 : from + 1, to - 1]` span per block, in block order |
| `DelimiterDecorations.DecorationsInOrder` | heynote-codemirror/src/note-block.js:89-95 | when delimiters do not overlap, each replaced span ends before the next one starts |
| `DelimiterDecorations.DecorationsSortedPositioned` | heynote-codemirror/src/note-block.js:89-95 | for the blocks of a positioned tree the replaced spans start in block order, as `RangeSet.of` needs |
| `DelimiterDecorations.DecorationField.Create` | heynote-codemirror/src/note-block.js:99-101 | the field starts with the decorations of the current blocks |
| `DelimiterDecorations.DecorationField.Update` | heynote-codemirror/src/note-block.js:102-109 | recomputed on a document change, otherwise unchanged |
| `AtomicRanges.AtomicRanges` | heynote-codemirror/src/note-block.js:121-131 | one range per block, exactly its delimiter span, in block order |
| `AtomicRanges.Delimiters` | heynote-codemirror/src/note-block.js:123-129 | the delimiter spans of a block list, one per block, in order |
| `AtomicRanges.AtomicRangesSorted` | heynote-codemirror/src/note-block.js:122-130 | for the blocks of a positioned tree the ranges reach the builder well formed, sorted and disjoint |
| `AtomicRanges.AtomicNoteBlock.Create` | heynote-codemirror/src/note-block.js:134-136 | the plugin starts with the atomic ranges of the current blocks |
| `AtomicRanges.AtomicNoteBlock.Update` | heynote-codemirror/src/note-block.js:138-142 | rebuilt on a document change, otherwise unchanged |
| `BlockLayer.Markers` | heynote-codemirror/src/note-block.js:167-191 | the bands pushed are those of `BandsFrom(blocks, visibleRanges, 0)`: the running index counts every block, visible or not |
| `BlockLayer.BandsFromExactly` | heynote-codemirror/src/note-block.js:174-189 | the bands from list position `idx` on are exactly the bands of the visible blocks at or after `idx` |
| `BlockLayer.BandsOfVisibleBlocks` | heynote-codemirror/src/note-block.js:171-189 | a band is drawn iff some block overlaps a visible range (inclusively), with class even/odd by that block's position in the whole list and span clipped to the first and last visible range |
| `BlockLayer.BandsFromCount` | heynote-codemirror/src/note-block.js:174-189 | there are exactly as many bands as blocks overlapping the viewport: one band per visible block |
| `BlockLayer.AllVisibleFrom` | heynote-codemirror/src/note-block.js:174-189 | with every block visible, the band at position `k - idx` is block `k`'s |
| `BlockLayer.AllVisibleAlternate` | heynote-codemirror/src/note-block.js:169-183 | with every block visible there is one band per block and the classes alternate even, odd, even, ... |
| `BlockLayer.BandWithinContent` | heynote-codemirror/src/note-block.js:176-181 | with sorted visible ranges, a visible block's clipped span lies within its content and does not end before it starts |
| `BlockLayer.BackgroundLayer.Create` | heynote-codemirror/src/note-block.js:167-191 | the layer starts with the bands of the current blocks and viewport |
| `BlockLayer.BackgroundLayer.Update` | heynote-codemirror/src/note-block.js:194-196 | redrawn when the document or the viewport changed, otherwise unchanged |
| `FirstBlockGuards.PreventFirstBlockFromBeingDeleted` | heynote-codemirror/src/note-block.js:205-209 | suppresses `[0, P]` iff the transaction is not the initial-data load and `P` is truthy; otherwise imposes nothing |
| `FirstBlockGuards.FirstDelimiterProtected` | heynote-codemirror/src/note-block.js:205-209 | with a non-empty first delimiter, an offset is protected iff the transaction is ordinary and the offset lies at or before the first delimiter's end |
| `FirstBlockGuards.NoBlocksNoFilter` | heynote-codemirror/src/note-block.js:205-209 | with no blocks, or a first delimiter ending at 0, no change is suppressed |
| `FirstBlockGuards.Clamped` | heynote-codemirror/src/note-block.js:218-228 | a no-op when `P` is unset or 0; otherwise endpoints below `P` become `P`, the others are unchanged, and a well-formed range stays well formed |
| `FirstBlockGuards.PreventSelectionBeforeFirstBlock` | heynote-codemirror/src/note-block.js:214-230 | every range of the selection is overwritten in place by its clamped value |
| `FirstBlockGuards.ClampIdempotent` | heynote-codemirror/src/note-block.js:214-230 | applying the clamp twice equals applying it once |
| `FirstBlockGuards.SelectionAfterFirstDelimiter` | heynote-codemirror/src/note-block.js:214-230 | after the filter every endpoint lies at or after the first delimiter's end; a cursor at 0 lands right after it |
| `LineNumbers.LineAtFrom` | heynote-codemirror/src/note-block.js:247 | the line search from line `n` returns the line whose span holds the offset |
| `LineNumbers.LineAt` | heynote-codemirror/src/note-block.js:247 | `lineAt(pos).number` is the line whose start is at or before `pos` and whose successor starts after it |
| `LineNumbers.LineAtLineStart` | heynote-codemirror/src/note-block.js:244-247 | the line holding a line's start is that line |
| `LineNumbers.LineAtMonotone` | heynote-codemirror/src/note-block.js:247 | later offsets lie on the same or a later line |
| `LineNumbers.FindFrom` | heynote-codemirror/src/note-block.js:245 | the search from position `i` finds the first block whose content contains the offset (both bounds inclusive), or reports that none does |
| `LineNumbers.FindBlock` | heynote-codemirror/src/note-block.js:245 | `find` returns the first block whose content contains the offset, or none exists |
| `LineNumbers.FormatNumber` | heynote-codemirror/src/note-block.js:242-252 | a number iff the line exists and some block's content contains its start; the number is `lineNo - lineAt(content.from) + 1` for the first such block, and it is at least 1 |
| `LineNumbers.EarlierContentEndsBefore` | heynote-codemirror/src/note-block.js:245 | in a segmented document an earlier block's content ends before a later block's delimiter starts |
| `LineNumbers.FirstContainingInSegmentation` | heynote-codemirror/src/note-block.js:245 | in a segmented document a block containing the offset is the first one that does |
| `LineNumbers.DelimiterLineBlank` | heynote-codemirror/src/note-block.js:243-251 | a line starting strictly inside a delimiter gets the empty label |
| `LineNumbers.FirstLineBlank` | heynote-codemirror/src/note-block.js:243-251 | in a segmented list whose first delimiter starts the document, the first line gets the empty label |
| `LineNumbers.ContentStartLineIsOne` | heynote-codemirror/src/note-block.js:243-249 | in a segmented list, a line that starts where a block's content starts is numbered 1 |
| `LineNumbers.NextLineCountsOn` | heynote-codemirror/src/note-block.js:243-249 | within one block consecutive lines get consecutive numbers |

## Left out

- The Lezer parser, `syntaxTree` and `IterMode.IgnoreMounts` are not modelled. The syntax tree is an input value (`NoteTree.Node`), and the grammar's guarantees about it are hypotheses: `Positioned` for ordered node ranges and `Segmentation` for contiguous blocks.
- A delimiter with no next sibling makes `getBlocks` throw on `contentNode.from`. The model excludes such trees by the precondition `Indexable`.
- `NoteTree.BlocksAreReachedDelimiters` states set equality between the list and the reached delimiters, not multiplicity. For positioned trees, `NoteTree.BlocksInDocumentOrder` adds the document order of the delimiters.
- `firstBlockDelimiterSize` is a module-level variable shared by every editor built from the module. It is modelled as a field of one `BlockState`, so sharing between editors is not modelled.
- Line 38 sets `firstBlockDelimiterSize` to `undefined` when no block is found, and `FirstBlockDelimiterSize` returns `None` for an empty list.
- CodeMirror's `StateField`, `ViewPlugin`, facet and `provide` wiring is not modelled. Each field or plugin is a class whose `Update` takes the transaction's `docChanged` and `viewportChanged` flags.
- `RangeSet.of`, `RangeSetBuilder.finish` and `Decoration.none` are not modelled: the model keeps the list of ranges they would wrap. For positioned trees the order they demand is proved: `AtomicRanges.AtomicRangesSorted` for the builder, and `DelimiterDecorations.DecorationsSortedPositioned` for the starts handed to `RangeSet.of`.
- The following `NoteBlockStart` widget parts are not modelled, since they have no position logic:
  - the DOM that `toDOM` builds;
  - the constant `eq` (always `true`);
  - the constant `ignoreEvent` (always `false`);
  - the `inclusive`/`block`/`side` flags.
- The layer's pixel geometry is not modelled:
  - `coordsAtPos`;
  - `documentTop` and `documentPadding`;
  - the `-1`/`+2` adjustments;
  - `editorWidth` and its measuring listener (lines 152-162).
  
  A band keeps only its class and the two document positions whose coordinates it would use.
- CodeMirror's handling of suppressed change ranges, of atomic ranges during cursor motion, and of the annotation list is not modelled. The `INITIAL_DATA` annotation is the boolean `initialData`.
- Selection ranges are modelled as values in an array. Object identity, and ranges shared with other objects, are not modelled.
- A transaction without a selection is modelled as an empty array. A `null` entry in the range list (the `range &&` test) is not modelled.
- `LineNumbers.FormatNumber` requires `lineNo >= 1`, because `doc.line` throws for smaller numbers. A document is modelled only by its line starts and its length, not by its text.
