# OcrAssist address detection, modelled in Dafny

OcrAssist finds postal addresses on a scanned page. Its main window's
`TryOCR` does the following:

1. It erodes and thresholds the image and takes the bounding box of every contour.
2. It discards boxes outside a size envelope (`IsTooLarge` / `IsTooSmall`).
3. It merges text fragments along each row (`MergeRects`).
4. It stacks rows into candidate blocks (`GroupRects`).
5. For each block of two to five boxes, it cuts a window out of the image. The window is the union of the block's boxes, grown by 5 pixels and clamped by `FixInvalidRects`.
6. It runs text recognition on the window.
7. It keeps the text when the line shape looks like an address and the entity tagger finds a person in the first line (`HeuristicAddressCheck`, `TryOcrAddress`).

This project models the integer geometry and the text decision of that
pipeline. It also models the unused helper `CountSegements`.

Modules, one per stage:

| file | module | models |
|---|---|---|
| geometry.dfy | `Geometry` | the rectangle operations the program borrows from its image library (union, intersection, overlap test, inflation), defined from their edges |
| bounds.dfy | `Bounds` | `FixInvalidRects`, one assignment per statement |
| size_filter.dfy | `SizeFilter` | `IsTooLarge`, `IsTooSmall` and the filtering loop in `TryOCR` |
| sorting.dfy | `Sorting` | the sorts by left edge and by top edge |
| row_merge.dfy | `RowMerge`, `RowMergeFacts` | `MergeRects`, with its in-place box list and consumed-index set |
| block_group.dfy | `BlockGroup`, `BlockGroupFacts` | `GroupRects`, with its running `current` box and ignored-index set |
| crop.dfy | `Crop` | the group-size gate and the window computed for a group |
| address.dfy | `Address` | line splitting, `HeuristicAddressCheck` and the decision of `TryOcrAddress` |
| report.dfy | `Report` | the text `TryOCR` reports: each accepted address followed by an empty line |
| pipeline.dfy | `Pipeline` | `TryOCR` from contour boxes to windows and report |
| segments.dfy | `Segments` | `CountSegements` |
| wrappers.dfy | `Wrappers` | `Option` |

Modelling choices:
- Fractional thresholds become exact integer inequalities:
  - too large: `10w > 4W` or `5h > H`;
  - too small: `25w < W` or `200h < H`;
  - merge cap: `10w < 3W` and `20h < H`;
  - column overlap: `4·area(intersection) > area`.
- `Math.Round(width * 0.01)` becomes the parameter `hExpand`. Half of it, by integer division, widens each merge candidate.
- The sweeps are index-recursive functions over an immutable state. They carry the same consumed and ignored sets as the program, and keep its quirks:
  - a consumed box is still visited by later seeds;
  - the first box is never checked for noise;
  - the merged union uses the unwidened box;
  - the column test compares the seed, not the running box.
- `List.Sort` is not stable. The model sorts with a stable insertion sort, which is one admissible order. Every sweep property is proved for any input order.

## Model

| member | source | states |
|---|---|---|
| `Geometry.Union` | OcrAssist/MainWindow.xaml.cs:327 | the union covers both boxes |
| `Geometry.UnionIsLeast` | OcrAssist/MainWindow.xaml.cs:327 | every box covering both operands covers their union, so the union is the smallest bounding box |
| `Geometry.Intersect` | OcrAssist/MainWindow.xaml.cs:283 | the intersection lies inside both boxes |
| `Geometry.IntersectIsGreatest` | OcrAssist/MainWindow.xaml.cs:283 | every box inside both operands lies inside their intersection |
| `Geometry.IntersectsIffNonEmpty` | OcrAssist/MainWindow.xaml.cs:281-283 | for boxes of positive size, the overlap test holds exactly when the intersection has positive width and height |
| `Geometry.Inflate` | OcrAssist/MainWindow.xaml.cs:323 | inflating moves the left and right edges out by dx and the top and bottom edges by dy |
| `Geometry.UnionSelfAndSymmetric` | OcrAssist/MainWindow.xaml.cs:184-188 | union is idempotent and symmetric, so folding the first member in twice changes nothing |
| `Geometry.UnionAllBounds` | OcrAssist/MainWindow.xaml.cs:184-188 | the folded union covers the start box and every member |
| `Geometry.UnionAllIsLeast` | OcrAssist/MainWindow.xaml.cs:184-188 | any box covering the start and every member covers the folded union |
| `Geometry.UnionAllRepeatedStart` | OcrAssist/MainWindow.xaml.cs:184-188 | starting the fold from the first member and folding it in again gives the same box |
| `Geometry.UnionAllSnoc` | OcrAssist/MainWindow.xaml.cs:290 | growing the running box by one more member is one more union step |
| `Bounds.FixInvalidRect` | OcrAssist/MainWindow.xaml.cs:351-372 | the result's left and top edges are at least 0 and its right and bottom edges at most the image size; left/top become max(x,0)/max(y,0); the width is the old width cut at the image edge, or negative when the left edge lies beyond the image |
| `Bounds.FixIdempotent` | OcrAssist/MainWindow.xaml.cs:351-372 | clamping twice is clamping once |
| `Bounds.FixLeavesInsideAlone` | OcrAssist/MainWindow.xaml.cs:351-372 | a well-formed box inside the image is unchanged |
| `Bounds.FixWidthNonNegativeIff` | OcrAssist/MainWindow.xaml.cs:359-369 | for non-negative extents, the clamped width is non-negative iff the clamped left edge is inside the image (same for height) |
| `Bounds.FixShiftsNegativeLeftEdge` | OcrAssist/MainWindow.xaml.cs:353-354 | a negative left edge is moved to 0 without shrinking the width, so the right edge moves right |
| `Bounds.FixKeepsInsideContents` | OcrAssist/MainWindow.xaml.cs:351-372 | a box inside the image that was covered before clamping is still covered after |
| `SizeFilter.KeepsIffInEnvelope` | OcrAssist/MainWindow.xaml.cs:237-245 | a box passes both tests iff 0.04·W ≤ width ≤ 0.40·W and 0.005·H ≤ height ≤ 0.20·H over the reals, boundaries included |
| `SizeFilter.FilterRects` | OcrAssist/MainWindow.xaml.cs:159-167 | the kept boxes are exactly the input boxes that pass both tests, with their multiplicities, and no others |
| `SizeFilter.EnvelopeBoundaries` | OcrAssist/MainWindow.xaml.cs:237-245 | on a 1000×1000 image the 4%/40% widths and 0.5%/20% heights are kept and one pixel beyond is not |
| `SizeFilter.HalfWidthBlobDiscarded` | OcrAssist/MainWindow.xaml.cs:237-240 | a box half as wide as the image never survives the filter |
| `Sorting.Insert` | OcrAssist/MainWindow.xaml.cs:306 | insertion adds exactly one element to the multiset |
| `Sorting.InsertKeepsSorted` | OcrAssist/MainWindow.xaml.cs:306 | inserting into an ordered sequence keeps it ordered |
| `Sorting.SortBy` | OcrAssist/MainWindow.xaml.cs:306 | the result is a permutation of the input, ordered by the key |
| `Sorting.SortByKeepsSorted` | OcrAssist/MainWindow.xaml.cs:249 | an already ordered sequence is left as it is |
| `RowMerge.MergeStep` | OcrAssist/MainWindow.xaml.cs:315-334 | one visit changes at most box i, and adds at most index j to the consumed set |
| `RowMerge.MergeStepConsumesIff` | OcrAssist/MainWindow.xaml.cs:315-334 | j is consumed after the visit iff it already was, or is noise, or overlaps box i once widened and the union is under the 30%/5% cap |
| `RowMerge.MergeStepGrowsSeed` | OcrAssist/MainWindow.xaml.cs:325-333 | box i is unchanged, or is replaced by its union with the unwidened j under the cap while j is consumed; a fresh merge always takes the union |
| `RowMerge.InnerSweep` | OcrAssist/MainWindow.xaml.cs:313-335 | the inner loop changes only box i and only adds consumed indices |
| `RowMerge.InnerSweepGrowsSeed` | OcrAssist/MainWindow.xaml.cs:313-335 | box i only grows, and if it changed it is under the cap |
| `RowMerge.InnerSweepConsumesVisited` | OcrAssist/MainWindow.xaml.cs:313-335 | the inner loop consumes only indices it visits |
| `RowMerge.InnerSweepConsumesNoise` | OcrAssist/MainWindow.xaml.cs:315-319 | every visited box with a side under 5 is consumed |
| `RowMerge.InnerSweepAbsorbs` | OcrAssist/MainWindow.xaml.cs:325-333 | every box that the inner loop newly consumes and that is not noise lies inside the grown box i |
| `RowMerge.OuterSweep` | OcrAssist/MainWindow.xaml.cs:308-336 | the outer loop never changes boxes before its position and only adds consumed indices |
| `RowMerge.OuterSweepGrows` | OcrAssist/MainWindow.xaml.cs:308-336 | every box only grows, and a changed box is under the cap |
| `RowMerge.OuterSweepConsumesLater` | OcrAssist/MainWindow.xaml.cs:308-336 | only indices after the starting seed are consumed |
| `RowMerge.OuterSweepConsumesNoise` | OcrAssist/MainWindow.xaml.cs:315-319 | from an unconsumed seed, every later noise box is consumed |
| `RowMerge.OuterSweepAbsorbs` | OcrAssist/MainWindow.xaml.cs:308-336 | every newly consumed box that is not noise lies inside an earlier box that is not consumed |
| `RowMerge.SweepFacts` | OcrAssist/MainWindow.xaml.cs:304-336 | after the full sweep, boxes only grew and stay under the cap; index 0 is never consumed; every later noise box is |
| `RowMerge.SweepLosesNoFragment` | OcrAssist/MainWindow.xaml.cs:304-336 | the first box and every box that is not noise lie inside a kept box at or before their own index |
| `RowMerge.Survivors` | OcrAssist/MainWindow.xaml.cs:339-347 | the survivor indices lie in the scanned range |
| `RowMerge.SurvivorsExact` | OcrAssist/MainWindow.xaml.cs:339-347 | the survivors are exactly the unconsumed indices, strictly increasing |
| `RowMerge.SurvivorsCount` | OcrAssist/MainWindow.xaml.cs:339-347 | there are as many survivors as indices minus consumed indices in range |
| `RowMerge.Collect` | OcrAssist/MainWindow.xaml.cs:338-347 | every emitted box lies within the image edges |
| `RowMerge.CollectIsClampedSurvivors` | OcrAssist/MainWindow.xaml.cs:338-347 | the output is the clamped survivors, in index order |
| `RowMerge.MergeSorted` | OcrAssist/MainWindow.xaml.cs:302-349 | every merged box lies within the image edges |
| `RowMerge.MergeRects` | OcrAssist/MainWindow.xaml.cs:302-349 | every merged box lies within the image edges |
| `RowMergeFacts.MergeSortedShape` | OcrAssist/MainWindow.xaml.cs:306-347 | output length is input length minus the consumed count; output p is the clamped box at the p-th survivor; a non-empty input always emits index 0 first |
| `RowMergeFacts.MergeSortedCoversFragments` | OcrAssist/MainWindow.xaml.cs:308-347 | the first box and every non-noise box lie inside some emitted box's unclamped source at or before them |
| `RowMergeFacts.ApartKept` | OcrAssist/MainWindow.xaml.cs:313-347 | two boxes inside the image, the second not noise and not meeting the first even when widened, both come out of the merge unchanged |
| `RowMergeFacts.FivesKept` | OcrAssist/MainWindow.xaml.cs:315 | on any image at least 105×5 and for any widening under 190 pixels, 5×5 boxes at x = 0 and x = 100 are not noise and both survive unchanged |
| `RowMergeFacts.FoursHalved` | OcrAssist/MainWindow.xaml.cs:313-319 | of two far-apart 4×4 boxes, only the second is dropped, because index 0 is never checked |
| `RowMergeFacts.ConsumedFragmentStillAbsorbed` | OcrAssist/MainWindow.xaml.cs:313-334 | an already consumed box is still merged into a later seed it overlaps |
| `BlockGroup.GrowStep` | OcrAssist/MainWindow.xaml.cs:269-292 | one visit appends at most j to the group and adds at most j to the ignored set |
| `BlockGroup.GrowStepIff` | OcrAssist/MainWindow.xaml.cs:269-292 | j joins iff it is not too large, not too far below the running box, and its column overlap with the seed exceeds 25% of both areas; joining grows the running box by j; j is ignored iff it already was or is too large |
| `BlockGroup.Grow` | OcrAssist/MainWindow.xaml.cs:267-294 | the inner loop only appends to the group and only adds ignored indices |
| `BlockGroup.GrowTail` | OcrAssist/MainWindow.xaml.cs:267-294 | the appended indices are in the visited range and strictly increasing |
| `BlockGroup.GrowCurrentIsUnion` | OcrAssist/MainWindow.xaml.cs:259-292 | the running box is always the union of the seed and the members picked so far |
| `BlockGroup.GrowOnlyGrows` | OcrAssist/MainWindow.xaml.cs:290 | the running box only grows |
| `BlockGroup.GrowIgnored` | OcrAssist/MainWindow.xaml.cs:269-273 | after the inner loop, an index is ignored iff it already was or it is a visited too-large box |
| `BlockGroup.GrowIndependentOfIgnored` | OcrAssist/MainWindow.xaml.cs:267-294 | the ignored set never influences which boxes join |
| `BlockGroup.JoinRuleAt` | OcrAssist/MainWindow.xaml.cs:275-292 | a box k joins iff the join test holds against the running box built from the members before k |
| `BlockGroup.GrowJoinIff` | OcrAssist/MainWindow.xaml.cs:267-294 | every visited box obeys that join rule |
| `BlockGroup.GrowFromInRange` | OcrAssist/MainWindow.xaml.cs:264-294 | a group's members come after the seed, strictly increasing |
| `BlockGroup.GroupFrom` | OcrAssist/MainWindow.xaml.cs:254-297 | the outer loop emits at most one group per remaining seed |
| `BlockGroup.GroupRects` | OcrAssist/MainWindow.xaml.cs:247-300 | there are no more groups than boxes |
| `BlockGroup.GroupOf` | OcrAssist/MainWindow.xaml.cs:264-265 | a group starts with its seed |
| `BlockGroup.SeedIndicesExact` | OcrAssist/MainWindow.xaml.cs:254-262 | the seeds are exactly the boxes that are not too large, in increasing order |
| `BlockGroup.GroupFromIsPerSeed` | OcrAssist/MainWindow.xaml.cs:254-297 | the outer loop's output equals one reference group per seed; the ignored set only holds too-large boxes, so it skips nothing else |
| `BlockGroupFacts.GroupOfMembers` | OcrAssist/MainWindow.xaml.cs:264-292 | a group is its seed followed by the boxes at the picked indices, which increase and come after the seed |
| `BlockGroupFacts.GroupOfJoinRule` | OcrAssist/MainWindow.xaml.cs:275-292 | every later box is a member iff the join test holds against the running box at that point |
| `BlockGroupFacts.GroupOfBox` | OcrAssist/MainWindow.xaml.cs:259-290 | the final running box is the union of the group's members and covers each of them |
| `BlockGroupFacts.GroupOfNotTooLarge` | OcrAssist/MainWindow.xaml.cs:261-273 | a group seeded by a box that is not too large has no too-large member |
| `BlockGroupFacts.GroupRectsIsPerSeed` | OcrAssist/MainWindow.xaml.cs:247-300 | after sorting by top edge there is exactly one group per box that is not too large, in order, and each is that seed's group |
| `BlockGroupFacts.GroupRectsExcludeTooLarge` | OcrAssist/MainWindow.xaml.cs:261-273 | no too-large box appears in any group |
| `BlockGroupFacts.StackedLinesGiveThreeGroups` | OcrAssist/MainWindow.xaml.cs:247-300 | three stacked 150×15 lines at y = 10, 30, 50 of a 400×200 image give three overlapping groups, of sizes 3, 2 and 1 |
| `Crop.GroupWindow` | OcrAssist/MainWindow.xaml.cs:182-191 | a window exists iff the group has 2 to 5 boxes; the window lies within the image edges |
| `Crop.WindowCoversMembers` | OcrAssist/MainWindow.xaml.cs:184-191 | every member inside the image lies inside the group's window |
| `Crop.WindowIsTight` | OcrAssist/MainWindow.xaml.cs:184-190 | before clamping, the window lies inside any cover of the members grown by the 5-pixel margin |
| `Crop.WindowIsGrownCurrent` | OcrAssist/MainWindow.xaml.cs:184-191 | the window recomputed from the members equals the grouping's final running box, grown and clamped |
| `Crop.Windows` | OcrAssist/MainWindow.xaml.cs:180-191 | at most one window per group, each within the image edges |
| `Crop.WindowsExact` | OcrAssist/MainWindow.xaml.cs:180-191 | a rectangle is among the windows iff it is the window of some group of 2 to 5 boxes; there is one window per such group |
| `Address.FirstBreak` | OcrAssist/MainWindow.xaml.cs:89 | the index is the first line break, with no break before it |
| `Address.SplitLines` | OcrAssist/MainWindow.xaml.cs:89 | every piece is non-empty and has no line break |
| `Address.SplitKeepsText` | OcrAssist/MainWindow.xaml.cs:89 | the pieces, run together, are the text with its breaks deleted |
| `Address.SplitJoinRoundTrip` | OcrAssist/MainWindow.xaml.cs:89-97 | splitting lines joined by line-feeds gives the lines back |
| `Address.SplitAppend` | OcrAssist/MainWindow.xaml.cs:89 | text followed by a break-led text splits into the pieces of each part |
| `Address.SplitAfterBreak` | OcrAssist/MainWindow.xaml.cs:89 | text ending at a break, followed by any text, splits into the pieces of each part |
| `Address.DropBreaksAppend` | OcrAssist/MainWindow.xaml.cs:89 | deleting breaks distributes over concatenation |
| `Address.HeuristicAddressCheck` | OcrAssist/MainWindow.xaml.cs:116-139 | accept iff there are at least 3 lines, line 0 has no digit, and lines 1 and 2 each have a digit and a letter |
| `Address.HeuristicLooksAtThreeLines` | OcrAssist/MainWindow.xaml.cs:116-139 | lines after the third never change the verdict |
| `Address.HeuristicExamples` | OcrAssist/MainWindow.xaml.cs:116-139 | a digit in the name line rejects, a missing digit in an address line rejects, two lines reject, a name/street/town block passes |
| `Address.ScanLabels` | OcrAssist/MainWindow.xaml.cs:100-104 | the person flag is set iff some tag is PERSON, and the location flag iff some tag is LOCATION |
| `Address.TryOcrAddress` | OcrAssist/MainWindow.xaml.cs:89-112 | a block is accepted iff the heuristic passes and the tagger reports PERSON in line 0 |
| `Address.AcceptedIsFirstThreeLines` | OcrAssist/MainWindow.xaml.cs:89-112 | accepted output splits back into exactly the first three recognised lines |
| `Address.AcceptedIsStable` | OcrAssist/MainWindow.xaml.cs:89-112 | recognising accepted output again accepts it unchanged |
| `Address.OnlyPersonMatters` | OcrAssist/MainWindow.xaml.cs:98-111 | two taggers that agree on PERSON for line 0 give the same decision, so the location flag is unused |
| `Address.ExtraLinesAreDropped` | OcrAssist/MainWindow.xaml.cs:89-112 | appending further lines to a text of at least three lines does not change the decision or the output |
| `Report.ValuesExact` | OcrAssist/MainWindow.xaml.cs:196-209 | a text is reported iff some window yielded it |
| `Report.AcceptedAreThreeLines` | OcrAssist/MainWindow.xaml.cs:196-202 | every accepted address reads back as three lines |
| `Report.ReportText` | OcrAssist/MainWindow.xaml.cs:178-213 | the loop's text is each accepted address followed by an empty line, in window order |
| `Report.ReportLines` | OcrAssist/MainWindow.xaml.cs:201-202 | splitting the report gives the addresses' lines in order, three per address; the blank lines vanish |
| `Pipeline.DetectWindows` | OcrAssist/MainWindow.xaml.cs:159-191 | every window sent to recognition lies within the image edges |
| `Pipeline.TryOcr` | OcrAssist/MainWindow.xaml.cs:141-214 | the windows are exactly those detected from the contour boxes, and the text is the report of the addresses accepted from them, in window order; the windows lie within the image, and the report holds three lines per accepted address, with at most one accepted address per window |
| `Segments.CountSegments` | OcrAssist/MainWindow.xaml.cs:216-235 | the loop counts the positive values that close a run of zeros, negatives aside |
| `Segments.OpenedMinusOpenIsClosed` | OcrAssist/MainWindow.xaml.cs:216-235 | runs opened minus the one still open at the end equals runs closed |
| `Segments.NegativesAreInvisible` | OcrAssist/MainWindow.xaml.cs:216-235 | deleting every negative value changes neither the run flag nor the count |
| `Segments.CountExamples` | OcrAssist/MainWindow.xaml.cs:216-235 | `[3,0,0,4,0,2,0]` counts 2; `[0,-1,0,5]` counts 1; `[0,0,0]` counts 0 |

## Behaviour worth knowing

- **Stacked lines.** Every box that is not too large seeds its own group, and groups may overlap. Three stacked text lines of a 400×200 image therefore give three groups: `[a,b,c]`, `[b,c]` and `[c]` (`BlockGroupFacts.StackedLinesGiveThreeGroups`). The first two pass the size gate, so both windows are sent to recognition.
- **Noise boxes.** Noise means a side strictly under 5 pixels, so two far-apart 5×5 boxes both survive the merge (`RowMergeFacts.FivesKept`). The first box of the ordering is never checked for noise, so of two far-apart 4×4 boxes the first survives and only the second is dropped (`RowMergeFacts.FoursHalved`).

## Left out

- Image processing is not modelled; the contour boxes are an input. That covers grey conversion, erosion, Otsu thresholding, inversion, contour finding and bounding boxes.
- Encoding a window as an image file, Tesseract recognition and the Stanford entity tagger are not modelled. They become the parameters `ocr` and `classify`. The encoder's failure is `None` from `ocr`.
- The debug drawing, the WPF user interface, file dialogs and third-party loading (`Load3rdParty`, `Button_Click`) are left out: they are plumbing with no logic to state.
- Floating point is not modelled:
  - the threshold comparisons are taken over the rationals; binary-double boundary effects are not modelled;
  - `Math.Round(width * 0.01)` is the parameter `hExpand`;
  - the erosion kernel width is not modelled at all.
- 32-bit overflow of coordinates and areas is not modelled; integers are unbounded.
- `Char.IsDigit` and `Char.IsLetter` are modelled as ASCII digits and Latin letters; other Unicode digits and letters are not.
- The order of equal keys after `List.Sort` is not modelled; the model uses one stable order.
- The ignored-index lists become sets. The program can add an index twice, and membership is all it ever asks, so nothing is lost.
- The `Intersect` library call's result for boxes that do not overlap is not modelled. The program only calls it after `IntersectsWith` holds.
- Cutting a window with a negative width would throw in the image library; the model keeps that width visible instead of modelling the exception.
- `RowMerge.MergeSorted`, `RowMerge.MergeRects`: their own contracts state only that outputs lie within the image edges. The full description of the output is in `RowMergeFacts.MergeSortedShape`, `RowMergeFacts.MergeSortedCoversFragments` and `RowMerge.SweepFacts`.
- `BlockGroup.GroupRects`, `BlockGroup.GroupFrom`: their own contracts bound only the number of groups. The exact result is stated by `BlockGroup.GroupFromIsPerSeed` and `BlockGroupFacts.GroupRectsIsPerSeed`.
- `Pipeline.DetectWindows`: its contract states only the image bound. Which windows appear is stated by `Crop.WindowsExact` on the grouping result.
