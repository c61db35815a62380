# jerkcitycv: panel grid and dialog clustering

This project models two parts of jerkcitycv, which reads the dialog of a comic page.

The first part is the panel-grid detector `findPanels` (src/panels.cc). It scans a grayscale page for near-white divider rows and columns. It adds edge dividers at both ends and appends one panel per grid cell to the page's panel list, in row-major order.

The second part is the dialog pipeline `untypeset` (src/untypeset.cc). It works through these steps:
- It takes the glyph candidates that the template search found and drops the worse of any two that overlap too much.
- It turns each remaining glyph into a chunk of its own: a chain of glyphs linked through `next`/`prev`, with a cached bounding box.
- It joins chunks into words, then words into lines.
- It drops short lines made only of punctuation-like glyphs.
- It joins lines into bubbles.
- It checks every chunk with `checkRep` between stages.
- It reads each bubble back as text and places it in the panel that leaves the least of it outside.
- It sorts each panel's dialog into reading order.

## How the model is built

- **Geometry.** `Geometry` is OpenCV's integer `cv::Rect`: `|` is the bounding union and `&` the intersection.
- **Page.** `Page` holds the page: a grayscale `Raster`, `Bubble`, `Panel`, and the class `Context` whose panel list the stages grow in place.
- **Glyph vector.** `Chains` models the glyph vector as an arena: a sequence of `CharBox` records whose `next`/`prev` links are indices or `Nil`.
  - A `StrBox` names a chain's head and tail and caches its box.
  - A ghost member list gives the arena indices of each chain in order. `IsChain` is the representation invariant `checkRep` checks.
- **Clusters class.** `Clustering.Clusters` holds the arena as an `array` and the chunk list as a `seq` field. Its methods rework both in place, as `merge`, `collect` and `filterGarbageLines` do. `StrBoxToString` reads one chain and returns its text, as `strBoxToString` builds a local string from a `const StrBox&`.
- **Join rules.** Each join rule is specified by the function `Plan`, and `collect` is proved to reach a fixed point of it.
- **Text.** `Text` holds the string work: `std::sort` + `std::unique`, and the `,.`/`.,` rewrite loop.
- **Glyph filter.** `Glyphs` holds the glyph-conflict filter.
- **Placement.** `Placement` holds `portionInPanel`, placement and sorting. `std::sort` is modelled as an insertion sort.
- **Panels.** `Panels` holds `findPanels`: the two scans as loops proved equal to recursive specifications, the edge dividers, and the grid.
- **Stage order.** `Untypeset` composes the stages in the source's order.

Where the source and its prose description differ, the model follows the source:
- **Leading divider.** The leading 0 divider is added when the scan reaches row (or column) 101 with nothing recorded, whether or not any divider is found later. A first divider at index 100 or less gets no 0 divider in front of it.
- **Tolerance counter.** The column scan's tolerance counter is not reset between columns.

## Model

| member | source | states |
|---|---|---|
| Geometry.Union | src/untypeset.cc:87 | `a \| b` contains both rectangles and lies inside every rectangle that contains both |
| Geometry.Intersect | src/untypeset.cc:335 | `a & b` covers exactly the pixels both cover; an empty result is the zero rectangle |
| Geometry.HalfTowardZero | src/untypeset.cc:174-178 | C++ `height / 2`: truncation toward zero, equal to floor division for non-negative heights |
| Chains.MergePreservesChain | src/untypeset.cc:77-88 | merging two disjoint chains gives a chain from a's head to b's tail over a's glyphs then b's, whose box is the union of the boxes. Only a's tail and b's head change; every glyph keeps its character and box, and a's tail's word-end flag becomes `asWords` |
| Chains.JoinKeepsChunksValid | src/untypeset.cc:77-88 | after a merge every other chunk is still a chain and the chains stay pairwise disjoint (the absorbed one set aside) |
| Chains.JoinKeepsCovered | src/untypeset.cc:143-145 | merging and erasing the absorbed chunk loses no glyph: the set of glyphs held is unchanged |
| Chains.EraseKeepsChunksValid | src/untypeset.cc:145 | erasing the absorbed chunk restores the full chunk invariant |
| Chains.Singletons | src/untypeset.cc:267-273 | `initStrBoxes`: one chunk per glyph, head and tail that glyph, box that glyph's box |
| Chains.SingletonsValid | src/untypeset.cc:20-23 | single unlinked, unflagged glyphs pass `checkRep` as chunks, and together they cover the arena |
| Chains.CheckRep | src/untypeset.cc:29-67 | `checkRep` with `==` at line 57 passes exactly when the head has no predecessor, the tail no successor, and following `next` from the head reaches the tail without repeating a glyph, each step linked back |
| Chains.Chase | src/untypeset.cc:39-66 | the tortoise-and-hare walk passes exactly when head and tail are linked |
| Chains.Race | src/untypeset.cc:43-66 | the loop of the walk returns true exactly when a linked path exists |
| Chains.Advance | src/untypeset.cc:57-65 | one step fails exactly on a null or unreturned link; otherwise the tortoise takes one link and the hare up to two |
| Chains.HareAdvance | src/untypeset.cc:63-65 | on a chain the hare moves two places along it, stopping at the tail |
| Chains.ArrivalLinks | src/untypeset.cc:47-49 | a walk from an unlinked head that first meets the unlinked tail at its end is a chain |
| Chains.ChainHeadLinksBack | src/untypeset.cc:55-57 | in a chain of two or more glyphs the head's successor points back to the head |
| Chains.BackLinkAsWritten | src/untypeset.cc:57 | the line as written always passes and stores the tortoise into its successor's `prev` |
| Chains.BackLinkAsWrittenPassesBrokenChain | src/untypeset.cc:57 | a two-glyph list with no back link is not a chain, yet the step as written passes it and repairs it |
| Chains.ReadChain | src/untypeset.cc:448-457 | the walk from the head along `next` reads the chain's characters in order, each flagged glyph followed by a space |
| Chains.RawTextLength | src/untypeset.cc:447-457 | the text before the rewrite has one character per glyph plus one space per flagged glyph |
| Chains.BoundaryRuns | src/untypeset.cc:217-229 | the forward run is a prefix of the chain's characters, none flagged; on an unflagged tail the backward run is non-empty and ends with the tail's character |
| Text.SortedUnique | src/untypeset.cc:231-232 | sort + unique gives a strictly increasing string with exactly the input's characters |
| Text.SortedUniqueCanonical | src/untypeset.cc:231-232 | two runs give equal sorted-unique strings exactly when they use the same characters |
| Text.ReplaceAllDots | src/untypeset.cc:465-466 | `replace_all` with `,.`/`.,` → `..` only turns commas into full stops |
| Text.StepDots | src/untypeset.cc:463-467 | each round only turns commas into full stops, and a round that changes something removes a comma, so the loop ends |
| Text.DottedFixed | src/untypeset.cc:462-467 | the rewrite repeated to its fixed point only turns commas into full stops, and one more round changes nothing |
| Text.RewriteDots | src/untypeset.cc:462-467 | the `do … while (oldResult != result)` loop ends, with the fixed point of the rewrite rounds |
| Text.DottedClean | src/untypeset.cc:462-467 | the result keeps the length, differs only where `,` became `.`, and contains neither `,.` nor `.,` |
| Glyphs.ConflictSymmetric | src/untypeset.cc:329-340 | `glyphsConflict` does not depend on the order of the two glyphs |
| Glyphs.ConflictOverlaps | src/untypeset.cc:329-340 | conflicting glyph boxes share a pixel |
| Glyphs.NestedConflict | src/untypeset.cc:329-340 | a non-empty box inside another conflicts with it both ways |
| Glyphs.DropVictim | src/untypeset.cc:357-361 | erasing the worse-scoring glyph of a conflict (on a tie the one at i) keeps every glyph that beats all its conflicts |
| Glyphs.FirstConflict | src/untypeset.cc:348-356 | the inner scan returns the first other glyph that conflicts with glyph i, or the end when none does |
| Glyphs.FilterConflictingGlyphs | src/untypeset.cc:342-371 | the survivors are a subsequence of the input and no two conflict. Every glyph that scores strictly better than all glyphs it conflicts with survives, and a non-empty input leaves a non-empty result |
| Clustering.IntervalIntersectsMeaning | src/untypeset.cc:209-215 | on non-empty intervals the test holds exactly when they share a point, i.e. max of starts < min of ends, and it is symmetric |
| Clustering.QuestionableCountAll | src/untypeset.cc:285-308 | the questionable count reaches the glyph count exactly when every glyph is questionable |
| Clustering.JoinKeepsGlyphs | src/untypeset.cc:77-88 | a planned join keeps every glyph's character, score and box (and flags, for words), and loses no glyph |
| Clustering.DropGarbageKeeps | src/untypeset.cc:324-325 | erasing a garbage line leaves the list of non-garbage lines unchanged |
| Clustering.PlainGlyphSurvives | src/untypeset.cc:310-325 | a glyph whose character is not questionable is still held by a line after the filter, since a garbage line is questionable glyphs only |
| Clustering.JoinKeepsOrder | src/untypeset.cc:143-145 | after a join and erase the chunks' heads are the old heads with the absorbed chunk's removed, a subsequence |
| Clustering.RowsDone | src/untypeset.cc:132-150 | no join from the rows before i and none from row i means none from rows up to i |
| Clustering.Clusters.constructor | src/untypeset.cc:267-273 | `initStrBoxes`: the arena is the glyphs, one chunk per glyph, and the chunk invariant holds |
| Clustering.Clusters.Merge | src/untypeset.cc:77-88 | `merge`: the arena relinked (a's tail to b's head, back link, flag with `asWords`), chunk a becomes head a, tail b, union box, and every chunk but b is a chain |
| Clustering.Clusters.BoundaryWordChars | src/untypeset.cc:217-234 | `getBoundaryWordChars`: the sorted distinct characters of the run from the head forward, or from the tail backward, up to the first flagged glyph |
| Clustering.Clusters.WalkForward | src/untypeset.cc:218-229 | the forward walk collects the characters before the first flagged glyph |
| Clustering.Clusters.WalkBackward | src/untypeset.cc:218-229 | the backward walk collects the characters after the last flagged glyph, in chain order |
| Clustering.Clusters.Attempt | src/untypeset.cc:138 | a stage's rule performs exactly the join `Plan` describes and returns the absorbed index, or changes nothing and returns -1 |
| Clustering.Clusters.HorizontalJoin | src/untypeset.cc:155-192 | `horizCollector`: orient by the x of a's tail and b's head glyphs. Join when the right-edge midpoint of a's tail and the left-edge midpoint of b's head are within 3 (words) or 14 (lines) across and 3 vertically. Lines flag the seam; the right operand is returned |
| Clustering.Clusters.BubbleJoin | src/untypeset.cc:238-262 | `collectBubbles`' rule: orient by box tops; join when the x extents intersect and a's bottom is within 5 of b's top; the lower line is returned |
| Clustering.Clusters.MergeLines | src/untypeset.cc:256-259 | the seam between lines is flagged unless the boundary words have the same at most six distinct characters |
| Clustering.Clusters.CheckRepAll | src/untypeset.cc:70-75 | `checkRep` over the list passes exactly when every chunk is linked head to tail |
| Clustering.Clusters.ChainPasses | src/untypeset.cc:143 | every chunk in good order passes `checkRep` |
| Clustering.Clusters.TryJoin | src/untypeset.cc:138-149 | one pair of `collect`: joins exactly when the rule plans a join, then the list is one shorter; otherwise nothing changes. The glyphs and the set of held glyphs are kept, and the survivors keep their order |
| Clustering.Clusters.Settle | src/untypeset.cc:143-145 | after a join the survivor's check passes and the absorbed chunk is erased |
| Clustering.Clusters.Discard | src/untypeset.cc:145 | `erase` of the absorbed chunk restores the invariant |
| Clustering.Clusters.Collect | src/untypeset.cc:130-152 | `collect`: on return no rule applies to any ordered pair. No glyph is lost, the list only shrinks, the glyphs are unchanged, and the survivors keep their order. Started at a fixed point it changes nothing, so running it again on its own output merges nothing |
| Clustering.Clusters.ScanRow | src/untypeset.cc:133-150 | the inner loop: either a join shortened the list, or nothing changed and no rule applies from row i; when no rule applies from row i on entry, nothing is joined |
| Clustering.Clusters.IsGarbageLine | src/untypeset.cc:282-312 | the walk of at most five glyphs finds a garbage line exactly when it has at most four glyphs, all questionable |
| Clustering.Clusters.DropLine | src/untypeset.cc:324-325 | erasing a garbage line keeps the invariant and the kept lines |
| Clustering.Clusters.FilterGarbageLines | src/untypeset.cc:278-327 | `filterGarbageLines` leaves exactly the non-garbage lines, in their order |
| Clustering.Clusters.StrBoxToString | src/untypeset.cc:447-470 | the characters in chain order with a space after each flagged glyph, rewritten to the `,.`/`.,` fixed point |
| Placement.PortionBounds | src/untypeset.cc:472-477 | the portion outside lies between 0 and the box's area. It is 0 for a box inside the panel, and for a box of positive size only then |
| Placement.ArgMinIsLeast | src/untypeset.cc:482-491 | the chosen panel has the least portion, and every earlier panel's portion is strictly larger |
| Placement.ContainedGoesToPanel | src/untypeset.cc:472-491 | a bubble of positive size inside exactly one panel is placed in that panel |
| Placement.ArgMinBoundsOnly | src/untypeset.cc:484-490 | the choice depends only on the panels' boxes, so earlier placements do not change it |
| Placement.ChoosePanel | src/untypeset.cc:482-491 | the scan with `<` picks the first panel with the least portion |
| Placement.AssignedToHas | src/untypeset.cc:479-492 | every bubble is among those assigned to the panel its box chooses |
| Placement.PlaceAllDialogs | src/untypeset.cc:479-494 | after placement each panel's dialog is its old dialog followed by exactly the bubbles whose best panel it is, in order |
| Placement.AssignedCount | src/untypeset.cc:479-494 | every bubble lands in exactly one panel: the additions across the panels number the bubbles |
| Placement.PlaceBubblesInPanels | src/untypeset.cc:479-494 | `placeBubblesInPanels` appends each chunk's text and box to its best panel in turn |
| Placement.PlaceChunk | src/untypeset.cc:481-492 | one pass of the loop: chunk k's text and box go to the end of its best panel's dialog, which places one more of the bubbles |
| Placement.LessAsymmetric | src/untypeset.cc:499-506 | the comparator never orders two bubbles both ways |
| Placement.LessCycles | src/untypeset.cc:499-506 | the comparator is not transitive: three bubbles can each precede the next in a cycle |
| Placement.InsertKeepsOrder | src/untypeset.cc:498 | inserting a bubble where it does not precede its left neighbour but does precede its right neighbour keeps the list in order |
| Placement.SortDialog | src/untypeset.cc:498-506 | the sorted dialog is a permutation of the input in which no bubble precedes its predecessor |
| Placement.SortBubblesInPanels | src/untypeset.cc:496-508 | every panel keeps its box and the multiset of its dialog, and its dialog is in order |
| Panels.ScanRows | src/panels.cc:25-43 | the row loop computes the recursive row scan |
| Panels.RawRowsSpaced | src/panels.cc:26-43 | the rows found are white, in range and at least 101 apart |
| Panels.RawRowsComplete | src/panels.cc:26-43 | every white row is found unless it lies within 100 rows below a found divider |
| Panels.RowScanSplit | src/panels.cc:30-34 | the row scan is the synthesised 0, if any, then the found rows. The 0 is present exactly when nothing was found before row 101 of a taller image |
| Panels.ScanColumns | src/panels.cc:45-91 | the column loop, with its counter carried across columns, computes the recursive column scan |
| Panels.RawColumnsSpaced | src/panels.cc:50-91 | the columns found are in range and at least 101 apart |
| Panels.ColumnScanSplit | src/panels.cc:78-82 | the column scan is the synthesised 0, if any, then the found columns |
| Panels.WhiteColumnIsDivider | src/panels.cc:52-76 | a column white from some row down is a divider whatever the counter |
| Panels.DividerIsWhiteBelow | src/panels.cc:62-65 | a divider column has no non-white sample below row 150 |
| Panels.ShortRunTolerated | src/panels.cc:67-72 | above the point of no return a dark run is tunnelled through while counter plus run stays within 8 |
| Panels.LongRunRejected | src/panels.cc:67-72 | a dark run reaching 9 with the counter stops the column even above the point of no return |
| Panels.CloseDividers | src/panels.cc:93-104 | the result is the list unchanged in length, or the list with the far edge appended after a last divider more than 100 from it; spacing and range are kept, and an empty list stays empty |
| Panels.CloseDividersAsWritten | src/panels.cc:93-104 | the step as written needs a non-empty list and then agrees with the corrected one |
| Panels.RowDividersSpaced | src/panels.cc:24-104 | the row dividers increase by at least 100 and lie in the image; a page taller than 101 has a first divider at or above row 100 |
| Panels.ColumnDividersSpaced | src/panels.cc:45-98 | the same for the column dividers |
| Panels.GridSize | src/panels.cc:112-122 | the grid has (\|ys\| - 1) * (\|xs\| - 1) panels |
| Panels.GridCell | src/panels.cc:112-122 | the panel at row-major index r * (\|xs\| - 1) + c spans [xs[c], xs[c+1]) by [ys[r], ys[r+1]) |
| Panels.FindPanels | src/panels.cc:9-123 | throws "too small" when a side is at most 100 and "went horribly wrong" with fewer than two dividers on an axis, leaving the panels alone. Otherwise it appends the grid after the existing panels |
| Panels.AppendGrid | src/panels.cc:113-122 | the outer loop appends the bands' panels from the top |
| Panels.AppendGridRow | src/panels.cc:114-121 | the inner loop appends one band's panels from the left |
| Panels.FindDividers | src/panels.cc:24-104 | both scans with their trailing dividers |
| Panels.FindPanelsGrid | src/panels.cc:112-122 | on success there are (\|ys\| - 1) * (\|xs\| - 1) panels in row-major order, each at least 100 wide and high and inside the image |
| Panels.DividerlessPageIsOnePanel | src/panels.cc:24-122 | a large page with no divider becomes one panel from the origin to the last row and column |
| Panels.BlackPage101EmptiesScans | src/panels.cc:18-104 | on a black 101 x 101 page both scans are empty although the size guard lets it through |
| Untypeset.CheckStage | src/untypeset.cc:521-533 | `checkRep(chunks)` between stages always passes |
| Untypeset.Chunk | src/untypeset.cc:518-534 | the chunking stages keep the glyphs, never make more chunks than glyphs, and end with no two bubbles joinable. The chunks hold only the glyphs, and every glyph whose character is not questionable is held by a chunk |
| Untypeset.Distribute | src/untypeset.cc:536-537 | each panel keeps its box; its dialog holds its old bubbles plus exactly the new ones whose best panel it is, in order; every chunk's bubble is in the dialog of the panel its box chooses |
| Untypeset.Distributed | src/untypeset.cc:536-537 | placement then sorting: each panel keeps its box, its dialog holds exactly its old bubbles plus the new ones whose best panel it is, in order, and each new bubble is in the dialog of the panel its box chooses |
| Untypeset.PlacedDialogs | src/untypeset.cc:479-494 | what placement leaves in each panel, with or without bubbles |
| Untypeset.Untypeset | src/untypeset.cc:510-538 | the whole pipeline: the surviving glyphs are a conflict-free subsequence keeping every dominant glyph, the final chunks hold only kept glyphs and every kept glyph that is not questionable, and admit no bubble join. Each panel ends with its old dialog plus its new bubbles, sorted, and every chunk's text and box reach the dialog of the panel its box chooses |

## Left out

- `findGlyphs`, `getCredibleMatch` and `loadTemplates` (template matching over a float score atlas in OpenCV) are not modelled. `Untypeset.Untypeset` takes their result as the parameter `glyphs`, each unlinked and unflagged, with integer scores.
- Debug drawing, the JSON trace on stderr and the `ctx.debug`/`debugJson` branches have no effect on results and are left out, as is the glyph's debug `id`.
- Actor attribution (src/actors.cc, src/actors_SIFT.cc), image loading and thresholding (src/main.cc, src/context.h), the template walk (src/templates.cc), the old prototype main.cc and www/jerkcity.py are not part of this model.
- Floating point: scores are integers. The 0.4 overlap ratio is the integer test `5 * inter > 2 * area`, which also answers "no conflict" for an empty box, where the source divides 0 by 0. Areas and portions are exact integers.
- `ChoosePanel`: the initial `FLT_MAX` is modelled as "no panel yet", so a portion larger than any float is not modelled.
- `Chains.CheckRep`: the comparison at src/untypeset.cc:57 is read as `==`, the evident intent (see Findings). The walk is bounded by the number of glyphs, a bound a real chain never reaches; the source loop ends by Floyd's argument.
- `Chains.CheckRep`: a failed check throws in the source; here the check returns `false`.
- `Placement.SortDialog`: `std::sort` is modelled as an insertion sort. The comparator is not a strict weak ordering (`LessCycles`), so the source's result order is unspecified. Only "a permutation with no adjacent pair out of order" is stated, for this sort.
- `Placement.PlaceBubblesInPanels` requires a panel whenever there are chunks. The source asserts that a panel was found, so `Untypeset.Untypeset` requires a panel whenever there are glyphs.
- The `RED_KICKSTARTER_FOOTER` branch of the column scan (src/panels.cc:54-60) is compiled out by default and is modelled as disabled.
- The single-channel assertion of `findPanels` is implied by `Raster` being single-channel.
- `Clustering.Clusters.BoundaryWordChars`: both walks run to the end of the chain when no flagged glyph stops them, as written.
- `Untypeset.Chunk`: the survivors' order is stated per stage (`Collect`, `FilterGarbageLines`), not composed across the stages.

## Findings

| source | as written | input that shows it | evidently intended | confidence | as-written member | corrected member |
|---|---|---|---|---|---|---|
| src/panels.cc:93-104 | `assert(xs.size() > 0)` and `assert(ys.size() > 0)`, then `back()`. An empty scan is not handled: the program aborts, or reads past an empty vector when assertions are off | a 101 x 101 all-black page. It passes the size guard, no row or column is white, and the leading 0 is only synthesised from index 101 on, so both lists are empty | an empty divider list should be rejected like the other degenerate grids, with "Finding the panels went horribly wrong" | not executed | Panels.CloseDividersAsWritten, Panels.BlackPage101EmptiesScans | Panels.CloseDividers |
| src/untypeset.cc:57 | `ASSERT(tortoise->next->prev = tortoise)` assigns and tests the non-null link, so the back link is never checked and is overwritten | two glyphs, the first pointing to the second, the second with a null `prev`. This is not a valid chain, yet the check passes it | `==`, checking that the successor links back | not executed | Chains.BackLinkAsWritten, Chains.BackLinkAsWrittenPassesBrokenChain | Chains.CheckRep |
