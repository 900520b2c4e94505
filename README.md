# jsitter zipper core in Dafny

jsitter is a Kotlin binding for the tree-sitter incremental parser. It reads the
native parse tree directly from memory.

This project models the part of jsitter that walks that tree, together with the
pieces it stands on:

- **`SubtreeAccess`** decodes tree-sitter's packed node layout.
  - Inline nodes are packed into the pointer word and tagged by its low bit.
  - Heap records hold their fields at fixed byte offsets.
  - The language record holds the alias-sequence table.
- **`TSZipper`** is the immutable cursor over the *visible* tree.
  - `up`, `down`, `right`, `left`, `downRight` and `invisibleRight` skip hidden nodes.
  - They apply aliases at the structural child index.
  - They derive each byte offset from the previous position.
- **`next`** is the pre-order step used to walk a whole tree.
- **`TSSubtree` / `TSTree`** are the handles:
  - pointer identity and hash;
  - size and padding;
  - the root cursor;
  - copy-then-edit `adjust`.
- **`ReducingZipper`** is a cursor that carries an accumulator folded along its path from the root.
- **`TSLanguage`** keeps the node-type registry:
  - two caches;
  - memoised symbol ids;
  - the `Error` sentinel.
- **`TSParser.parse`** is the control flow of one parse:
  - the shortcut for an already-actual tree;
  - the cancellation flag;
  - reset after every native parse;
  - release of a tree produced after cancellation.
- **The earlier revision in `impl.kt`** contributes:
  - `getChangedRanges`;
  - `TSSubtree.adjust`;
  - its own variant of the cursor moves.

Memory is a `map<int, int>` from addresses to bytes. Loads are little-endian, and
`Unsafe`'s signed reads are modelled with explicit two's-complement conversions.

The cursor does not work on memory directly. It works over a `Subtree` datatype whose
fields are exactly what the readers return. The `SubtreeLayout` module connects the two
layers: it encodes a node into memory the way tree-sitter lays it out, and proves that
each reader returns the encoded field.

Termination of the mutual recursion between `down` and `right` uses a measure over the
finite tree: the number of concrete nodes after the cursor's subtree in pre-order.

The moves are specified against reference definitions of the visible tree:

- **`VisibleTree`** flattens the concrete tree into what the cursor shows.
  - A hidden node stands for its visible children, recursively.
  - `VisibleChildren(z)` is the row that `down`/`downRight` look into.
  - `Preceding(z)` and `Following(z)` are the visible positions before and after `z` in that row.
  - `Ancestors(z)` is the chain of concrete parents that `up` climbs.
- **`Preorder`** lists the visible positions below and after a cursor in pre-order, which `next` and the walk follow.
- **`WellFormed`** holds when the cursor is consistent with its tree and every stored
  `visible_children_count` equals the number of the node's visible children.
  The moves read that count to decide whether to enter a hidden node, so their results are
  characterised exactly only on well-formed trees.
- **The alias table** every cursor lemma takes as a parameter is the rows the cursor reads.
  Tree-sitter stores the count against its own rows, the table of `SubtreeLayout.AliasLookupScaled`.
  jsitter's reader yields different rows, `SubtreeLayout.AsWrittenAliases` (see Findings), and
  `SubtreeLayout.AsWrittenAliasSymbol` proves that the model's alias symbol over them is what
  `aliasSymbol` reads from memory. The lemmas describe jsitter's cursor with that table, on trees
  whose stored counts agree with it. On a grammar whose aliases the overlapping rows misread, the
  stored counts need not agree, and `SubtreeLayout.AsWrittenHidesAlias` shows `down` returning null
  where tree-sitter's rows give a visible child.

Stateful parts are Dafny classes:

- the registry caches;
- the table of native trees with their edit logs;
- the parser's cancellation flag and its log of native calls;
- the subtree retain counts.

Native algorithms are function-valued parameters or nondeterministic method arguments:

- symbol names;
- tree editing;
- the parse itself.

Two behaviours of the code around byte offsets are easy to misread:

- `TSSubtree.zipper()` (TSTree.kt:53-60) starts at the root's padding, not at byte offset 0.
  The earlier revision (impl.kt:124-131) does start at 0, and
  `LegacyImpl.LegacyRootShift` relates the two.
- A pre-order walk does not make byte offsets increase from one node to the next:
  a first child starts inside its parent.
  Only sibling steps advance the offset, by the current node's size plus the next node's padding.

## Model

| member | source | states |
|---|---|---|
| SubtreeAccess.HeapOffsets | src/main/kotlin/jsitter/impl/SubtreeAccess.kt:19-35 | the chained heap field offsets are padding 4, size 16, child_count 36, symbol 40, flags 44, children 48, visible_children_count 56, production_id 76, and the language's max alias length sits at 72 |
| SubtreeAccess.IsInline | src/main/kotlin/jsitter/impl/SubtreeAccess.kt:15-17 | defined as "the tag bit of the slot is set"; `IsInlineLowBit` states it as "the slot value is odd" |
| SubtreeAccess.IsInlineLowBit | src/main/kotlin/jsitter/impl/SubtreeAccess.kt:15-17 | a slot is inline exactly when the low bit of its value is 1, negative slots included |
| SubtreeAccess.LongByte | src/main/kotlin/jsitter/impl/SubtreeAccess.kt:123-135 | byte i (0..6) is bits 8i..8i+7 of the two's-complement word as 0..255; byte 7 is the arithmetic shift by 56 (signed); any other index is an error (None) |
| SubtreeAccess.ReadShort | src/main/kotlin/jsitter/impl/SubtreeAccess.kt:38-40 | the masked signed short is always the unsigned 16-bit little-endian value at the address, in [0, 65535] |
| SubtreeAccess.ShortBitsLow | src/main/kotlin/jsitter/impl/SubtreeAccess.kt:38-40 | masking the sign-extended short with 0xFFFF recovers the stored 16 bits |
| SubtreeAccess.SubtreeNodeType | src/main/kotlin/jsitter/impl/SubtreeAccess.kt:42-48 | the symbol is an unsigned 16-bit value for inline and heap nodes alike |
| SubtreeAccess.ChildCount | src/main/kotlin/jsitter/impl/SubtreeAccess.kt:50-56 | an inline node has no children |
| SubtreeAccess.ChildAt | src/main/kotlin/jsitter/impl/SubtreeAccess.kt:58-61 | reads the children pointer at offset 48, then the 8-byte slot i of that array, with no inline check; `ChildAtRoundTrip` and `ChildAtReadsSlot` state which child it returns |
| SubtreeAccess.Extra | src/main/kotlin/jsitter/impl/SubtreeAccess.kt:63-70 | mask 8 of inline byte 0, or mask 4 of the heap flags byte; `InlineFlagsRoundTrip` and `HeapFlagsRoundTrip` state that it returns the stored extra flag |
| SubtreeAccess.SubtreeBytesSize | src/main/kotlin/jsitter/impl/SubtreeAccess.kt:72-78 | an inline node's size is one unsigned byte |
| SubtreeAccess.SubtreeBytesPadding | src/main/kotlin/jsitter/impl/SubtreeAccess.kt:80-86 | an inline node's padding is one unsigned byte |
| SubtreeAccess.ProductionId | src/main/kotlin/jsitter/impl/SubtreeAccess.kt:96-98 | the production id is an unsigned 16-bit value |
| SubtreeAccess.IsVisible | src/main/kotlin/jsitter/impl/SubtreeAccess.kt:88-94 | mask 2 of inline byte 0, or mask 1 of the heap flags byte; `InlineFlagsRoundTrip` and `HeapFlagsRoundTrip` state that it returns the stored visible flag |
| SubtreeAccess.VisibleChildCount | src/main/kotlin/jsitter/impl/SubtreeAccess.kt:100-102 | a signed 32-bit read at offset 56, even for an inline slot; `HeapLinksRoundTrip` states that it returns a heap record's stored count |
| SubtreeAccess.AliasSequenceAt | src/main/kotlin/jsitter/impl/SubtreeAccess.kt:104-106 | an alias entry is an unsigned 16-bit value read at sequence + 2 * index |
| SubtreeAccess.AliasSequence | src/main/kotlin/jsitter/impl/SubtreeAccess.kt:108-116 | production id 0 (or less) has no alias sequence (0); otherwise the row address is as written (see Findings) |
| SubtreeAccess.Root | src/main/kotlin/jsitter/impl/SubtreeAccess.kt:118-120 | the first 8-byte word of the tree record; `RootRoundTrip` states that it returns the stored root slot |
| SubtreeLayout.InlineSlotBytes | src/main/kotlin/jsitter/impl/SubtreeAccess.kt:123-135 | the packed inline word is tagged inline and its bytes 0..3 are the flags, symbol, padding and size |
| SubtreeLayout.InlineRoundTrip | src/main/kotlin/jsitter/impl/SubtreeAccess.kt:42-56 | for an inline node the readers return symbol = byte 1, padding = byte 2, size = byte 3 and child count 0 |
| SubtreeLayout.InlineFlagsRoundTrip | src/main/kotlin/jsitter/impl/SubtreeAccess.kt:63-70 | an inline node is visible iff bit value 2 of byte 0 is set and extra iff bit value 8 is set (IsVisible at lines 88-94) |
| SubtreeLayout.InlineFlagBits | src/main/kotlin/jsitter/impl/SubtreeAccess.kt:88-94 | in an inline flags byte, mask 2 isolates the visible bit and mask 8 the extra bit, whatever the other bits hold |
| SubtreeLayout.HeapRoundTrip | src/main/kotlin/jsitter/impl/SubtreeAccess.kt:42-86 | a heap record stored at an aligned address is read back: symbol, padding, size and child count |
| SubtreeLayout.HeapFlagsRoundTrip | src/main/kotlin/jsitter/impl/SubtreeAccess.kt:63-70 | a heap node is visible iff flags bit 0 is set and extra iff flags bit 2 is set (IsVisible at lines 88-94) |
| SubtreeLayout.HeapFlagBits | src/main/kotlin/jsitter/impl/SubtreeAccess.kt:88-94 | in a heap flags byte, mask 1 isolates the visible bit and mask 4 the extra bit |
| SubtreeLayout.HeapLinksRoundTrip | src/main/kotlin/jsitter/impl/SubtreeAccess.kt:96-102 | the children pointer, visible child count and production id of a heap record are read back |
| SubtreeLayout.AlignedIsHeap | src/main/kotlin/jsitter/impl/SubtreeAccess.kt:15-17 | an 8-aligned pointer is never taken for an inline node |
| SubtreeLayout.ChildAtRoundTrip | src/main/kotlin/jsitter/impl/SubtreeAccess.kt:58-61 | child i is the i-th 8-byte pointer of the stored children array |
| SubtreeLayout.ChildAtReadsSlot | src/main/kotlin/jsitter/impl/SubtreeAccess.kt:58-61 | whatever memory holds the children array, childAt(i) is its i-th slot; no inline check is made |
| SubtreeLayout.RootRoundTrip | src/main/kotlin/jsitter/impl/SubtreeAccess.kt:118-120 | the root slot stored in a tree record's first word is what `root` returns |
| SubtreeLayout.AliasSequenceRowsOverlap | src/main/kotlin/jsitter/impl/SubtreeAccess.kt:104-116 | counterexample: with two entries per row, the row of production 1 as written starts at the second entry of row 0 and reads 0 where the table holds alias 7 |
| SubtreeLayout.AliasLookupScaled | src/main/kotlin/jsitter/impl/SubtreeAccess.kt:104-116 | with rows scaled by the 2-byte entry size, entry j of production p's row is table[p][j] for every stored table |
| SubtreeLayout.ReadAlias | src/main/kotlin/jsitter/impl/TSZipper.kt:207-213 | what the cursor reads for a non-extra node under production p at index j is an unsigned 16-bit value, and 0 under production 0 |
| SubtreeLayout.AsWrittenAliases | src/main/kotlin/jsitter/impl/SubtreeAccess.kt:104-116 | the rows jsitter reads form a table of `count` rows of `width` entries each |
| SubtreeLayout.AsWrittenAliasSymbol | src/main/kotlin/jsitter/impl/TSZipper.kt:207-216 | over the rows jsitter reads, the model's alias symbol is what `aliasSymbol` computes from memory: 0 when `aliasSequence` gives 0 or the node is extra, otherwise the entry at the structural index of the unscaled row; visibility is the flag or that entry being non-zero |
| SubtreeLayout.AsWrittenHidesAlias | src/main/kotlin/jsitter/impl/SubtreeAccess.kt:112 | counterexample: a hidden only child aliased 7 by production 1 is found by `down` under tree-sitter's rows, and its tree is well formed for them; under the rows jsitter reads it is not, and `down` returns null |
| TSZipper.AliasSymbol | src/main/kotlin/jsitter/impl/TSZipper.kt:207-213 | the alias symbol is 0 whenever the parent alias sequence is 0 or the node is extra, and otherwise the table entry at the structural index; for the rows jsitter reads, `SubtreeLayout.AsWrittenAliasSymbol` ties it to memory |
| TSZipper.Alias | src/main/kotlin/jsitter/impl/TSZipper.kt:196-205 | the alias is absent exactly when the alias symbol is 0, and otherwise is that symbol |
| TSZipper.Visible | src/main/kotlin/jsitter/impl/TSZipper.kt:215-216 | visible by the node's own flag or a non-zero alias symbol; an extra node, or one under production 0, is visible only by its flag |
| TSZipper.FirstChild | src/main/kotlin/jsitter/impl/TSZipper.kt:15-32 | the first candidate child inherits the parent's offset, has child index 0 and structural index 0, and uses the parent's production as alias sequence |
| TSZipper.InvisibleRight | src/main/kotlin/jsitter/impl/TSZipper.kt:83-107 | the concrete next sibling exists exactly when the cursor is not the last child, and is the next sibling |
| TSZipper.NextSibling | src/main/kotlin/jsitter/impl/TSZipper.kt:56-74 | the next concrete sibling under the same parent and alias row starts its padding where the node ends, and its structural index stays the same exactly when the node left is extra |
| TSZipper.PrevSibling | src/main/kotlin/jsitter/impl/TSZipper.kt:162-180 | as written: the previous concrete sibling ends where the node's padding begins, and its structural index stays the same exactly when the node left is extra |
| TSZipper.PrevSiblingFixed | src/main/kotlin/jsitter/impl/TSZipper.kt:162-180 | corrected: the previous concrete sibling ends where the node's padding begins, and its structural index stays the same exactly when the sibling entered is extra |
| TSZipper.Up | src/main/kotlin/jsitter/impl/TSZipper.kt:8-13 | the result is a valid visible cursor of smaller depth in the same tree; positions consistent with the tree stay consistent (that it is the nearest visible proper ancestor is VisibleTree.UpIsNearestVisibleAncestor) |
| TSZipper.Down | src/main/kotlin/jsitter/impl/TSZipper.kt:15-42 | the result is visible, strictly later in pre-order and in the same tree; its `up` is the node when the node is visible, and the node's own `up` otherwise (from a hidden node with no visible descendant it continues after the node, line 39) |
| TSZipper.Right | src/main/kotlin/jsitter/impl/TSZipper.kt:44-81 | the result is visible, lies after the node's subtree in pre-order, has the same visible parent and is in the same tree |
| TSZipper.DownRight | src/main/kotlin/jsitter/impl/TSZipper.kt:109-147 | the result is visible, in the same tree, and its `up` is the node (or the node's `up` when the node is hidden) |
| TSZipper.DownRightLoop | src/main/kotlin/jsitter/impl/TSZipper.kt:127-135 | the scanning loop returns exactly the recursive `DownRight` |
| TSZipper.LastCandidate | src/main/kotlin/jsitter/impl/TSZipper.kt:127-135 | the scan's result is a valid sibling, consistent when its inputs are, and either the starting choice or a later child that is visible or has visible children; `ScanFindsLastCandidate` states that it is the last such child |
| TSZipper.Left | src/main/kotlin/jsitter/impl/TSZipper.kt:149-188 | as written: the result is visible with the same visible parent; see Findings for its structural index |
| TSZipper.LeftFixed | src/main/kotlin/jsitter/impl/TSZipper.kt:149-188 | corrected left: visible result with the same visible parent in the same tree, and positions consistent with the tree stay consistent |
| TSZipper.ConsistentIsValid | src/main/kotlin/jsitter/impl/TSZipper.kt:189-195 | a cursor whose offsets and indices agree with the tree is structurally valid |
| TSZipper.NextThenPrevFixed | src/main/kotlin/jsitter/impl/TSZipper.kt:56-70 | a concrete step right then the corrected step left restores the cursor: offset back by padding(cur) and size(sibling) (line 170) |
| TSZipper.PrevFixedThenNext | src/main/kotlin/jsitter/impl/TSZipper.kt:162-176 | the corrected concrete step left then a step right restores the cursor |
| TSZipper.NextThenPrev | src/main/kotlin/jsitter/impl/TSZipper.kt:164-170 | the as-written step back restores node, offset and child index, and restores the structural index iff both siblings share the extra flag |
| TSZipper.NextChildZipper | src/main/kotlin/jsitter/impl/TSZipper.kt:56-70 | the concrete next sibling of child k is child k + 1 at offset + size(child k) + padding(child k + 1) |
| TSZipper.DownToFirstChild | src/main/kotlin/jsitter/impl/TSZipper.kt:15-35 | a visible first child is where `down` lands |
| TSZipper.RightToSibling | src/main/kotlin/jsitter/impl/TSZipper.kt:56-79 | a visible next sibling is where `right` lands |
| TSZipper.RightIntoSibling | src/main/kotlin/jsitter/impl/TSZipper.kt:71-79 | a hidden next sibling in which `down` finds a position is entered with `down`, not skipped |
| TSZipper.RightFromLast | src/main/kotlin/jsitter/impl/TSZipper.kt:44-54 | from the last child, `right` is null under a visible parent and continues from a hidden parent |
| TSZipper.RightThenLeftFixed | src/main/kotlin/jsitter/impl/TSZipper.kt:44-81 | between two adjacent visible siblings, in any tree, `right` and the corrected `left` undo each other |
| TSZipper.UpAfterDown | src/main/kotlin/jsitter/impl/TSZipper.kt:8-42 | from a visible node, `up` after `down` returns the node |
| TSZipper.UpAfterDownRight | src/main/kotlin/jsitter/impl/TSZipper.kt:8-13 | from a visible node, `up` after `downRight` returns the node |
| TSZipper.ScanFindsLastCandidate | src/main/kotlin/jsitter/impl/TSZipper.kt:127-135 | the scan keeps the last child that is visible or has visible children |
| TSZipper.DownRightStartsAtLastCandidate | src/main/kotlin/jsitter/impl/TSZipper.kt:109-135 | `downRight` starts from the last child that is visible or has visible children (the first child when there is none) |
| TSZipper.AtTheEdges | src/main/kotlin/jsitter/impl/TSZipper.kt:44-54 | childless nodes have no `down`/`downRight`; at the root `up`, `right` and `left` are null; at the last (first) child `right` (`left`) is null under a visible parent and continues from a hidden one (lines 149-161) |
| TSZipper.LeftWithoutExtras | src/main/kotlin/jsitter/impl/TSZipper.kt:149-188 | in a tree with no extra node, the source's `left` is the corrected `left` |
| TSZipper.LeftAfterExtraMislabels | src/main/kotlin/jsitter/impl/TSZipper.kt:164-169 | counterexample: stepping left from an extra node mislabels the previous sibling's structural index and gives it an alias it does not have |
| VisibleTree.CandidateShows | src/main/kotlin/jsitter/impl/TSZipper.kt:131-140 | in a well-formed tree, a child passes the test `visible or visibleChildCount > 0` exactly when it shows at least one visible position |
| VisibleTree.DownFirst | src/main/kotlin/jsitter/impl/TSZipper.kt:15-42 | `down` is the first entry of the node's visible children followed, for a hidden node, by the visible positions after the node in its row; null exactly when that list is empty |
| VisibleTree.RightFirst | src/main/kotlin/jsitter/impl/TSZipper.kt:44-81 | `right` is the first visible position after the cursor in its visible parent's row, null exactly when there is none |
| VisibleTree.DownRightLast | src/main/kotlin/jsitter/impl/TSZipper.kt:109-147 | `downRight` is the last of the node's visible children, null exactly when it has none |
| VisibleTree.LeftFixedLast | src/main/kotlin/jsitter/impl/TSZipper.kt:149-188 | the corrected `left` is the last visible position before the cursor in its visible parent's row, null exactly when there is none |
| VisibleTree.DownPreceding | src/main/kotlin/jsitter/impl/TSZipper.kt:15-42 | the result of `down` has nothing before it in its row when the node is visible, and what precedes the node when it is hidden |
| VisibleTree.RightPreceding | src/main/kotlin/jsitter/impl/TSZipper.kt:44-81 | what precedes the result of `right` is what precedes the cursor, then the cursor's own visible positions |
| VisibleTree.DownRightFollowing | src/main/kotlin/jsitter/impl/TSZipper.kt:109-147 | the result of `downRight` has nothing after it in its row when the node is visible, and what follows the node when it is hidden |
| VisibleTree.LeftFixedFollowing | src/main/kotlin/jsitter/impl/TSZipper.kt:149-188 | what follows the result of the corrected `left` is the cursor's own visible positions, then what follows the cursor |
| VisibleTree.LeftFixedUndoesRight | src/main/kotlin/jsitter/impl/TSZipper.kt:149-188 | in a well-formed tree, from any visible cursor whose `right` exists, the corrected `left` of that result is the cursor |
| VisibleTree.RightUndoesLeftFixed | src/main/kotlin/jsitter/impl/TSZipper.kt:44-81 | in a well-formed tree, from any visible cursor whose corrected `left` exists, `right` of that result is the cursor |
| VisibleTree.LevelSplits | src/main/kotlin/jsitter/impl/TSZipper.kt:8-13 | the positions before the cursor, the cursor's own and those after it make up the visible children of its `up` (the root's row at the top) |
| VisibleTree.VisibleNeighbours | src/main/kotlin/jsitter/impl/TSZipper.kt:44-188 | a visible cursor sits in its row at the index of what precedes it; `right` is the next entry and the corrected `left` the previous one, null at the ends |
| VisibleTree.UpIsNearestVisibleAncestor | src/main/kotlin/jsitter/impl/TSZipper.kt:8-13 | `up` is null exactly when no proper ancestor is visible, and otherwise is the visible ancestor nearest to the cursor |
| VisibleTree.VisibleChildrenBelong | src/main/kotlin/jsitter/impl/TSZipper.kt:8-13 | every visible child of a node is a valid visible position in the same tree whose `up` is the node, or the node's `up` when the node is hidden |
| VisibleTree.DownIsFirstVisibleChild | src/main/kotlin/jsitter/impl/TSZipper.kt:15-147 | from a visible node, `down` is its first visible child and `downRight` its last, each null exactly when it has none, and the node is an ancestor of either result |
| Preorder.Next | native/src/tests.c:10-25 | the pre-order step is down, else right, else climb until an ancestor has a right; each step moves strictly forward in pre-order and stays in the same tree |
| Preorder.ClimbRight | native/src/tests.c:19-23 | climbing up until some ancestor has a right sibling lands after the current subtree |
| Preorder.NextLoop | native/src/tests.c:10-25 | the climbing loop computes exactly `Next` |
| Preorder.Traverse | src/test/kotlin/jsitter/test/tests.kt:23-28 | the walk collecting node types starts with the cursor's own type |
| Preorder.TraverseBounded | src/test/kotlin/jsitter/test/tests.kt:25-28 | the walk visits at most as many nodes as remain in pre-order, so the loop ends |
| Preorder.BelowEmpty | native/src/tests.c:10-25 | a node has visible positions below it exactly when it has visible children |
| Preorder.BeyondThroughUp | native/src/tests.c:19-23 | the positions after a cursor are those after it inside its `up`'s subtree, then those after its `up` |
| Preorder.DownInPreorder | native/src/tests.c:12-14 | `down` is null exactly when nothing visible lies below, and otherwise is the first visible position below the node in pre-order |
| Preorder.RightInPreorder | native/src/tests.c:15-18 | `right` is null exactly when nothing visible follows inside the `up`'s subtree, and otherwise is the first visible position after the node's subtree |
| Preorder.ClimbRightInPreorder | native/src/tests.c:19-23 | once nothing visible is left below or within the `up`, climbing finds the next visible position in pre-order, and nothing when none is left |
| Preorder.NextInPreorder | native/src/tests.c:10-25 | `next` is the pre-order successor among the visible positions of the whole tree, and null after the last one |
| Preorder.TraverseIsPreorder | src/test/kotlin/jsitter/test/tests.kt:23-28 | the walk lists the cursor's type and then the type of every visible position after it in pre-order, each once |
| Preorder.TraverseFromRoot | src/test/kotlin/jsitter/test/tests.kt:23-28 | from the root the walk lists the root's type and then the types of all visible positions of the tree in pre-order |
| GoExample.ValidPositions | src/test/kotlin/jsitter/test/tests.kt:20-22 | the hand-built tree of `func hello() { sayHello() }` is consistent at every inner position |
| GoExample.GoTreeWellFormed | src/test/kotlin/jsitter/test/tests.kt:20-22 | every stored visible child count of the hand-built Go tree is its number of visible children |
| GoExample.GoTraversal | src/test/kotlin/jsitter/test/tests.kt:29-43 | walking the tree with `next` lists source_file, function_declaration, func, identifier, parameter_list, (, ), block, {, call_expression, identifier, argument_list, (, ), } |
| GoExample.GoNavigation | src/test/kotlin/jsitter/test/tests.kt:44-52 | down, down, right, right, right, down, right reaches the call_expression, at byte 15 |
| TSTree.Equal | src/main/kotlin/jsitter/impl/TSTree.kt:37-38 | handles are equal when they hold the same slot; `EqualityAndHash` states that this is an equivalence that ignores language and lifetime |
| TSTree.HashCode | src/main/kotlin/jsitter/impl/TSTree.kt:40-41 | the hash is the 32-bit truncation of the pointer plus one, wrapping around |
| TSTree.EqualityAndHash | src/main/kotlin/jsitter/impl/TSTree.kt:37-41 | handle equality is an equivalence that ignores language and lifetime, and equal handles hash alike |
| TSTree.HashCollision | src/main/kotlin/jsitter/impl/TSTree.kt:37-41 | pointers 2^32 apart hash alike yet are different handles |
| TSTree.ByteSize | src/main/kotlin/jsitter/impl/TSTree.kt:47-48 | an inline handle's size is one unsigned byte |
| TSTree.Padding | src/main/kotlin/jsitter/impl/TSTree.kt:50-51 | an inline handle's padding is one unsigned byte |
| TSTree.SizesOfStoredNodes | src/main/kotlin/jsitter/impl/TSTree.kt:47-51 | byteSize and padding are the size and padding of the node behind the pointer, inline or heap |
| TSTree.RootZipper | src/main/kotlin/jsitter/impl/TSTree.kt:53-60 | the root cursor: no parent, alias row 0, indices 0, offset the root's padding; `RootZipperIsConsistent` states what follows from it |
| TSTree.RootZipperIsConsistent | src/main/kotlin/jsitter/impl/TSTree.kt:53-60 | the root cursor has no parent, no `up`, and a visible first child at the root's padding is what `down` reaches |
| TSTree.ApplyEditsAppend | src/main/kotlin/jsitter/impl/TSTree.kt:72-74 | applying edits in list order composes: a + b is a, then b |
| TSTree.NativeTrees.CopyTree | src/main/kotlin/jsitter/impl/TSTree.kt:71 | the copy is a fresh tree with the original's contents, and the original is untouched |
| TSTree.NativeTrees.EditTree | src/main/kotlin/jsitter/impl/TSTree.kt:73 | one edit changes only the edited tree, appending to its edit log |
| TSTree.Adjust | src/main/kotlin/jsitter/impl/TSTree.kt:66-82 | no edits return the tree itself with nothing changed; otherwise the edits are applied in order to a fresh copy only, and the result is not actual and rooted at the copy's root |
| Reducing.ReducingZipperOf | src/main/kotlin/jsitter/api/ReducingZipper.kt:3-5 | a new reducing cursor wraps the node's cursor with the initial accumulator as its parent-or-init |
| Reducing.Up | src/main/kotlin/jsitter/api/ReducingZipper.kt:13-19 | `up` is the recorded parent and is null exactly at the initial accumulator |
| Reducing.Down | src/main/kotlin/jsitter/api/ReducingZipper.kt:21-31 | `down` is null iff the cursor's `down` is, and otherwise records this cursor as parent |
| Reducing.Right | src/main/kotlin/jsitter/api/ReducingZipper.kt:33-43 | `right` is null iff the cursor's `right` is, and keeps the same parent-or-init |
| Reducing.Left | src/main/kotlin/jsitter/api/ReducingZipper.kt:45-55 | `left` is null iff the cursor's corrected `left` is, and keeps the same parent-or-init |
| Reducing.Node | src/main/kotlin/jsitter/api/ReducingZipper.kt:60-61 | the node is the wrapped cursor's |
| Reducing.ByteOffset | src/main/kotlin/jsitter/api/ReducingZipper.kt:63-64 | the offset is the wrapped cursor's |
| Reducing.AliasOf | src/main/kotlin/jsitter/api/ReducingZipper.kt:10-11 | the alias is the wrapped cursor's |
| Reducing.Acc | src/main/kotlin/jsitter/api/ReducingZipper.kt:66-73 | the reducer applied to the parent's accumulator, or to the initial value, and this cursor; `AccIsFold` states it as a left fold along the path |
| Reducing.AccIsFold | src/main/kotlin/jsitter/api/ReducingZipper.kt:66-73 | the accumulator is the reducer folded from the initial value along the cursors of the `down` path |
| Reducing.RootAcc | src/main/kotlin/jsitter/api/ReducingZipper.kt:66-73 | a root reducing cursor's accumulator is reducer(init, z) |
| Reducing.DownAcc | src/main/kotlin/jsitter/api/ReducingZipper.kt:21-31 | a child's accumulator is reducer(parent's accumulator, child cursor) and its path extends the parent's |
| Reducing.SidewaysAcc | src/main/kotlin/jsitter/api/ReducingZipper.kt:33-55 | a sideways move replaces only the last cursor of the path and keeps the parent |
| Reducing.UpAgrees | src/main/kotlin/jsitter/api/ReducingZipper.kt:13-19 | when every recorded parent is the cursor's own `up`, the reducing `up` agrees with it |
| Reducing.MovesTrack | src/main/kotlin/jsitter/api/ReducingZipper.kt:21-55 | `right`, `left` and `down` from a visible node keep recorded parents equal to the cursor's `up` |
| Reducing.DownFromInvisibleRoot | src/main/kotlin/jsitter/api/ReducingZipper.kt:13-31 | below a hidden root the reducing `up` returns the root while the cursor's own `up` is null: `up` never consults `z.up()` |
| TSLanguage.NodeType.Error | src/main/kotlin/jsitter/api/api.kt:32-37 | the Error sentinel is named ERROR, starts initialized, and has id -1 |
| TSLanguage.Language.GetNodeType | src/main/kotlin/jsitter/impl/TSLanguage.kt:15-32 | cached symbols return the cached type with no change; -1 caches Error with no lookup or registration; otherwise a type registered under the name is reused, and a new Terminal/NodeType is made only when the name is absent; its id becomes the symbol |
| TSLanguage.GetNodeTypeTwice | src/main/kotlin/jsitter/impl/TSLanguage.kt:15-16 | two calls with the same symbol return the same object |
| TSLanguage.Language.GetNodeTypeSymbol | src/main/kotlin/jsitter/impl/TSLanguage.kt:34-42 | an initialized type returns its id untouched; otherwise the name is looked up once and stored with the initialized flag |
| TSLanguage.ErrorSymbol | src/main/kotlin/jsitter/impl/TSLanguage.kt:34-36 | the symbol of Error is -1 |
| TSLanguage.Language.NodeTypeNamed | src/main/kotlin/jsitter/impl/TSLanguage.kt:44 | a name resolves exactly when it is registered, to the registered type |
| TSLanguage.Language.Register | src/main/kotlin/jsitter/impl/TSLanguage.kt:51-53 | registration inserts or overwrites the type's name and touches no other name |
| TSLanguage.Language.NodeTypeOf | src/main/kotlin/jsitter/impl/TSTree.kt:43-45 | the type of a node is the cached type of its symbol, named by the language |
| TSParser.CancellationToken.OnCancel | src/main/kotlin/jsitter/impl/TSParser.kt:32-34 | the token remembers the parser whose flag it sets |
| TSParser.CancellationToken.Cancel | src/main/kotlin/jsitter/impl/TSParser.kt:32-34 | cancelling sets the registered parser's flag to 1 |
| TSParser.Parser.Parse | src/main/kotlin/jsitter/impl/TSParser.kt:26-60 | an actual tree is returned as is; otherwise the flag is reset, an already cancelled token gives null with no native parse, reset follows every native parse, a null result gives null, a tree produced after cancellation is released before null, and a successful parse is recorded and returned actual with its root |
| LegacyImpl.Pairs | src/main/kotlin/jsitter/impl/impl.kt:164-168 | an array of length 2n gives n ranges, range k being (rs[2k], rs[2k+1]) |
| LegacyImpl.FlattenPairs | src/main/kotlin/jsitter/impl/impl.kt:164-168 | flattening the ranges gives back the array |
| LegacyImpl.PairsFlatten | src/main/kotlin/jsitter/impl/impl.kt:164-168 | pairing a flattened list of ranges gives back the list |
| LegacyImpl.ChangedRanges | src/main/kotlin/jsitter/impl/impl.kt:159-170 | a null native result gives no ranges; an even array gives its pairs; an odd array fails indexing past its end |
| LegacyImpl.EditChainAppend | src/main/kotlin/jsitter/impl/impl.kt:136-138 | threading the pointer through edits a + b is threading through a, then b |
| LegacyImpl.AdjustSubtree | src/main/kotlin/jsitter/impl/impl.kt:133-142 | the subtree is retained once, the pointer is threaded through each edit in order, and the last one becomes the result's pointer and lifetime |
| LegacyImpl.NativeSubtrees.Retain | src/main/kotlin/jsitter/impl/impl.kt:135 | a retain adds one to the subtree's count and to no other |
| LegacyImpl.LegacyRootZipper | src/main/kotlin/jsitter/impl/impl.kt:124-131 | this revision's root cursor starts at byte offset 0 and is consistent |
| LegacyImpl.LegacyRootShift | src/main/kotlin/jsitter/impl/impl.kt:124-131 | it differs from the current root cursor only by the root's padding |
| LegacyImpl.LegacyVisible | src/main/kotlin/jsitter/impl/impl.kt:231-245 | this revision's nested visibility test is equivalent to the current one (visible flag, or a non-zero alias of a non-extra node under a non-zero alias sequence) |
| LegacyImpl.LegacyNextSibling | src/main/kotlin/jsitter/impl/impl.kt:346-358 | this revision's concrete step right agrees with the current one in node, offset and child index; only the structural index rule differs |
| LegacyImpl.LegacyPrevSibling | src/main/kotlin/jsitter/impl/impl.kt:300-322 | as written: the previous concrete sibling ends at the node's offset plus its padding, not minus it, and its structural index stays the same exactly when the alias row is 0 or the node left is extra |
| LegacyImpl.LegacyUp | src/main/kotlin/jsitter/impl/impl.kt:247-256 | this revision's `up` is the current `up` |
| LegacyImpl.LegacyDown | src/main/kotlin/jsitter/impl/impl.kt:259-287 | the result is a valid visible cursor strictly later in pre-order |
| LegacyImpl.LegacyRight | src/main/kotlin/jsitter/impl/impl.kt:336-379 | the result is a valid visible cursor after the node's subtree in pre-order |
| LegacyImpl.LegacyLeft | src/main/kotlin/jsitter/impl/impl.kt:290-333 | the result is a valid visible cursor |
| LegacyImpl.SimilarValid | src/main/kotlin/jsitter/impl/impl.kt:224-229 | cursors that differ only in their structural indices are valid together |
| LegacyImpl.LegacyDownSimilar | src/main/kotlin/jsitter/impl/impl.kt:259-287 | this revision's `down` reaches the same node, offset and parents as the current `down` |
| LegacyImpl.LegacyRightSimilar | src/main/kotlin/jsitter/impl/impl.kt:336-379 | this revision's `right` reaches the same node, offset and parents as the current `right` |
| LegacyImpl.LegacyDownFirstVisibleChild | src/main/kotlin/jsitter/impl/impl.kt:259-287 | from a visible node in a well-formed tree, this revision's `down` is null exactly when there is no visible child, and otherwise reaches the first visible child |
| LegacyImpl.LegacyNextThenPrev | src/main/kotlin/jsitter/impl/impl.kt:312 | a right step then this revision's left step restores node and child index but moves the offset forward by twice the entered sibling's padding, so restores it iff that padding is 0 |
| LegacyImpl.LegacyNextThenPrevFixed | src/main/kotlin/jsitter/impl/impl.kt:312 | the corrected left step undoes a right step exactly |
| LegacyImpl.LegacyPrevFixedThenNext | src/main/kotlin/jsitter/impl/impl.kt:358 | a right step undoes the corrected left step exactly |
| LegacyImpl.LegacyLeftMisplaces | src/main/kotlin/jsitter/impl/impl.kt:312 | counterexample: stepping left from the second of two leaves puts the first at byte 2 instead of 0 |
| LegacyImpl.LegacyLeftSkips | src/main/kotlin/jsitter/impl/impl.kt:326 | counterexample: stepping left into a hidden sibling lands on its first visible child, skipping its last one, which the current `left` reaches |

## Left out

- `Cleaner.kt`: garbage-collection finalisation on a daemon thread. It is about runtime reachability and concurrency.
- `TSTextInput.kt` and the parser's `readingBuffer`: I/O glue around the caller's text.
  `Parse` takes the native outcome (a tree produced or not, its root, cancellation during the parse) as arguments.
- The native library (`JSitter.java`) is not part of this model.
  - Symbol names, terminal flags and lookups by name are function-valued fields of `Language`.
  - Editing a tree's root and editing a subtree are function parameters (`editRoot`, `editSubtree`).
  - Copying and releasing trees work on an abstract table of trees, each a root plus its edit log.
  - The changed-range diff is an argument of `ChangedRanges`.
- `synchronized` in `parse` and the concurrent maps of the registry: the model is sequential.
- `CancellationToken` is declared outside the modelled files. The class here models only what `parse` relies on: a cancelled flag and one registered callback.
- `TSZipper.alias` resolves the alias symbol to a node type with `getNodeType`. `TSZipper.Alias` returns the symbol itself, and `TSLanguage.Language.GetNodeType` models the resolution.
- `TSZipper.Visible` and the moves read `visibleChildCount` from the node datatype. jsitter's own `visibleChildCount()` is called on every hidden child that `down` and `downRight` consider (TSZipper.kt:36, 131, 140), including an inline hidden leaf. On an inline slot the reader `SubtreeAccess.VisibleChildCount` reads memory at the slot value plus 56, which is not part of any record. The model takes every count from the datatype, where a well-formed tree gives a leaf the count 0, so it does not capture what that stray read returns.
- RightThenLeftFixed: states the round trip only for two adjacent visible siblings, though for any tree. The round trip after every successful `right` is `VisibleTree.LeftFixedUndoesRight`, which needs a well-formed tree.
- LegacyDown: its own contract states validity, visibility and progress in pre-order. That it finds the first visible child is `LegacyImpl.LegacyDownFirstVisibleChild`, for a visible node in a well-formed tree, and up to structural indices.
- Down: its own contract states soundness (a valid visible result later in pre-order, in the same tree). That it returns the first visible position below, null exactly when there is none, is `VisibleTree.DownFirst` and `Preorder.DownInPreorder`, for well-formed trees only, whose stored visible child counts are right; with a wrong count `down` can skip a visible child.
- Right: its own contract states soundness. That it returns the next visible position in its row, null exactly when there is none, is `VisibleTree.RightFirst` and `Preorder.RightInPreorder`, for well-formed trees only.
- DownRight: its own contract states soundness. That it returns the last visible child, null exactly when there is none, is `VisibleTree.DownRightLast`, for well-formed trees only.
- LeftFixed: its own contract states soundness. That it returns the previous visible position in its row, null exactly when there is none, is `VisibleTree.LeftFixedLast`, for well-formed trees only.
- Next: its own contract states strict progress. That it is the pre-order successor, null after the last visible position, is `Preorder.NextInPreorder`, for well-formed trees only.
- Traverse: its own contract states that the walk starts with the cursor's type. That it lists every visible position after it in pre-order is `Preorder.TraverseIsPreorder`, for well-formed trees only.
- Left: agrees with the corrected `LeftFixed` only on trees without extra nodes (`TSZipper.LeftWithoutExtras`); otherwise see Findings.
- `Reducing`: the source keeps `parentOrInit` untyped (`Any?`) and tests `is ReducingZipper` at run time (ReducingZipper.kt:7, 14, 67). The model separates an initial accumulator from a recorded parent, so an initial accumulator that is itself a `ReducingZipper` stays an accumulator, whereas the source's `up()` would return it and `acc` would take its accumulator instead.
- Alias entries outside the table (a row or column the language does not have) read as 0 in `TSZipper.AliasAt`. The memory model only describes tables that are present.
- Byte offsets, sizes and paddings are unbounded integers in the cursor model. Kotlin's `Int` arithmetic on offsets would wrap above 2^31, which a parse tree of that size would need.
- `TSSubtree.type` (a lazy property) caches the node type per handle. `TSLanguage.Language.NodeTypeOf` models one evaluation.
- `Language.parser()` and `retainSubtree()` only call the native library. The retain count they would change is modelled by `LegacyImpl.NativeSubtrees.Retain`.
- `Reducing`: the reducer is passed to `Acc` instead of being stored in every cursor, and the accumulator is recomputed rather than cached lazily.
- `Reducing.Left` moves with the corrected `TSZipper.LeftFixed`. The as-written `TSZipper.Left` is kept and compared in Findings.
- `Preorder.Traverse` models the test's loop over `next()`. Its node-type names are replaced by symbol numbers of a hand-built tree, because the Go grammar tables are not available.
- `src/main/kotlin/impl.kt`, the old cursor revision, delegates navigation to a native cursor whose struct is not visible.
- `impl.kt`'s own `TSParser`, `TSLanguage`, `TSTree.adjust` and `TSSubtree` equality repeat the current files apart from the `actual` flag. They are modelled once, from the current files.
- `TSParser.CancellationToken.Cancel` sets the flag of the one registered parser. The real token may call several callbacks.
- `SubtreeAccess.AliasSequence`: the row address is stated only through the counterexample and the corrected `SubtreeLayout.AliasSequenceScaled`, not for every table. The source computes `productionId * readShort(...)` as a product of two Kotlin `Int`s, which wraps above 2^31 before it is widened to a pointer; the model takes the exact product.
- `TSZipper.AliasSymbol`: the table stands for the rows the cursor reads. For jsitter as written those are `SubtreeLayout.AsWrittenAliases`, which overlap. The exactness lemmas (`VisibleTree.DownFirst` and the rest) describe the source's cursor on trees whose stored visible child counts agree with those rows. Tree-sitter computes the counts from its own rows, so on grammars where the two sets of rows differ the lemmas do not apply (`SubtreeLayout.AsWrittenHidesAlias`).

## Findings

| source | as written | input that shows it | evidently intended | confidence | as-written member | corrected member |
|---|---|---|---|---|---|---|
| src/main/kotlin/jsitter/impl/SubtreeAccess.kt:112 | the row of production p starts at table + p * maxLength bytes, but entries are 2 bytes wide (read at seq + 2 * index, line 105) | table at 0x2000 with max length 2 and rows [0,0], [7,9]: production 1's row is read from 0x2002, the second entry of row 0, so its first alias reads 0 instead of 7 | table + 2 * p * maxLength | not executed | SubtreeAccess.AliasSequence, SubtreeLayout.AliasSequenceRowsOverlap, SubtreeLayout.AsWrittenHidesAlias | SubtreeLayout.AliasSequenceScaled, SubtreeLayout.AliasLookupScaled |
| src/main/kotlin/jsitter/impl/TSZipper.kt:164-169 | stepping left decreases the structural index unless the *current* node is extra; the right step (lines 58-63) tests the node it leaves, so the left step should test the sibling it enters | children [hidden a, hidden b, visible extra e] of a production that aliases structural index 1 to symbol 7: left from e gives b index 2 (no alias), skips it, and returns a at index 1, aliased 7, instead of b aliased 7 | decrease unless the *sibling* is extra, the inverse of the right step | not executed | TSZipper.Left, TSZipper.NextThenPrev, TSZipper.LeftAfterExtraMislabels | TSZipper.LeftFixed, TSZipper.NextThenPrevFixed, TSZipper.RightThenLeftFixed, VisibleTree.LeftFixedUndoesRight |
| src/main/kotlin/jsitter/impl/impl.kt:312 | the left sibling's offset is offset − size(sibling) + padding(current); the right step at line 358 adds size(current) + padding(sibling) | text `ab c`, leaves a (size 2, at byte 0) and c (padding 1, at byte 3): left from c places a at byte 2, not 0 | offset − padding(current) − size(sibling) | not executed | LegacyImpl.LegacyLeft, LegacyImpl.LegacyNextThenPrev, LegacyImpl.LegacyLeftMisplaces | LegacyImpl.LegacyNextThenPrevFixed, LegacyImpl.LegacyPrevFixedThenNext |
| src/main/kotlin/jsitter/impl/impl.kt:326 | a hidden left sibling is entered with `down()`, which lands on its first visible descendant | hidden node holding leaves x then y, followed by a visible leaf: left from that leaf gives x, whose right is y | enter with `downRight()`, landing on the last visible descendant, as the current revision does | not executed | LegacyImpl.LegacyLeft, LegacyImpl.LegacyLeftSkips | TSZipper.LeftFixed |
