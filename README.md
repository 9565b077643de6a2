# Gesture-driven grid: a verified model

This project models the decision logic of a web prototype that drives a grid of image tiles with body and hand tracking. Pose landmarks from a camera move an on-screen cursor. Hand gestures (an open or a closed hand) become "hand opened" / "hand closed" actions. A grid component lays out 16:9 tiles and animates each tile as it is hovered and selected.

Each part is modelled in Dafny and proved against a specification:

- **Streams** (`streams.dfy`): the rxjs operators the pipelines use (`map`, `filter`, `distinctUntilChanged`, `bufferCount(n, 1)`). Each is a function from the finite sequence of values pushed so far to the sequence of values emitted.
- **Averaging** (`averaging.dfy`): `averageLandmarks` is a mean over the landmarks whose visibility is defined and at least 0.5, with an all-zero fallback. It is the `reduce` loop, proved equal to a reference mean.
- **Dynamics** (`dynamics.dfy`): the pipelines of the `Dynamics` class.
  - Gesture lists per hand frame, reduced to a single winning gesture by a running maximum.
  - Winners mapped to hand actions, deduplicated.
  - Wrist selection with a preferred side.
  - The mirrored screen mapping of the cursor.
  - The right wrist averaged over sliding windows of three frames, up to the first frame without a pose, where the source's stream ends with an error.
- **Padding** (`padding.dfy`): `padLeadingZeros` is the loop that prepends `'0'`. It sits on a model of the decimal rendering of a non-negative integer.
- **GridLayout** (`grid.dfy`):
  - `calculateSizing` computes box size, gaps and centring margins.
  - `generateBoxes` is the nested loops producing column-major boxes with ids `box-i-j` and tile image names.
- **SelectableBoxes** (`selectable_box.dfy`): the tile's message handler is a class with the `over`, `selected` and `id` fields. It is backed by a pure transition function. Animations are returned as values.

`wrappers.dfy` holds `Option` (for `undefined`); `sequences.dfy` holds the `Init` / `Last` helpers; `landmarks.dfy` holds the landmark record.

## Model

| member | source | states |
|---|---|---|
| Streams.Map | src/modules/computervision/Dynamics.ts:115-124 | one output per input; output i is f applied to input i |
| Streams.Filter | src/modules/computervision/Dynamics.ts:125 | every output is an input satisfying the predicate; every input satisfying it is output; never longer than the input (exact counts: `FilterCounts`) |
| Streams.FilterCounts | src/modules/computervision/Dynamics.ts:125 | each value occurs in the output as often as in the input if it passes, and never if it fails; with `FilterSubsequence` this determines the output |
| Streams.FilterSubsequence | src/modules/computervision/Dynamics.ts:125 | the filtered stream is a subsequence of its input (order kept) |
| Streams.FilterIdempotent | src/modules/computervision/Dynamics.ts:125 | filtering twice by the same predicate equals filtering once |
| Streams.DistinctUntilChanged | src/modules/computervision/Dynamics.ts:126 | never longer than the input; keeps the first and the last input; no two adjacent outputs are equal |
| Streams.DistinctUntilChangedSubsequence | src/modules/computervision/Dynamics.ts:126 | the deduplicated stream is a subsequence of its input |
| Streams.DistinctUntilChangedMembers | src/modules/computervision/Dynamics.ts:126 | every deduplicated value was an input |
| Streams.DistinctUntilChangedIsChanges | src/modules/computervision/Dynamics.ts:107-109 | comparing with the last value emitted is the same as dropping each input equal to the input just before it |
| Streams.DistinctUntilChangedKeepsDistinct | src/modules/computervision/Dynamics.ts:74 | a stream with no adjacent repeats passes unchanged |
| Streams.DistinctUntilChangedIdempotent | src/modules/computervision/Dynamics.ts:126 | deduplicating twice equals deduplicating once |
| Streams.DistinctUntilChangedThroughMap | src/modules/computervision/Dynamics.ts:113-124 | a deduplication before a map is redundant when the mapped stream is deduplicated again |
| Streams.DistinctUntilChangedThroughFilter | src/modules/computervision/Dynamics.ts:125-126 | a deduplication before a filter is redundant when the filtered stream is deduplicated again |
| Streams.Windows | src/modules/computervision/Dynamics.ts:138 | `bufferCount(n, 1)`: one window per input having n - 1 successors; window k holds inputs k .. k+n-1 |
| Averaging.Average | src/modules/computervision/utils.ts:3-34 | reference mean of the qualifying entries, `Origin` when none qualifies; the visibility is always defined; characterised by `AverageOfQualifying`, `AverageWithoutQualifying`, `AverageVisibilityAtLeastHalf` and `AverageOfIdentical` |
| Averaging.AverageLandmarks | src/modules/computervision/utils.ts:3-34 | the reduce-and-divide loop returns the reference mean `Average` of its input |
| Averaging.AverageOfQualifying | src/modules/computervision/utils.ts:7-17 | entries failing the visibility gate (undefined or below 0.5) do not affect the result |
| Averaging.AverageWithoutQualifying | src/modules/computervision/utils.ts:27-32 | when no entry qualifies, including the empty input, the result is exactly x = y = z = visibility = 0 |
| Averaging.AverageOfThreeQualifying | src/modules/computervision/utils.ts:22-26 | with three qualifying entries and one rejected, each coordinate and the visibility are the sum over the three divided by 3 |
| Averaging.AverageVisibilityAtLeastHalf | src/modules/computervision/utils.ts:10-26 | when some entry qualifies, the averaged visibility is defined and at least 0.5 |
| Averaging.AverageOfIdentical | src/modules/computervision/utils.ts:10-26 | when every qualifying entry is the same landmark, the average is that landmark |
| Averaging.AverageExample | src/modules/computervision/utils.test.ts:5-43 | the unit test: visibility 0.5, x 1, y 2, z 6 |
| Padding.ToString | src/utils/utils.ts:2 | `num.toString()`: at least one decimal digit, no leading zero unless the number is 0 |
| Padding.ToStringRoundTrip | src/utils/utils.ts:2 | reading the digits back gives the number |
| Padding.ZeroPadded | src/utils/utils.ts:1-5 | length is the larger of `size` and the digit count; ends with `toString(num)`; '0' everywhere before it |
| Padding.PadLeadingZeros | src/utils/utils.ts:1-5 | the prepend loop terminates and returns `ZeroPadded(num, size)` |
| Padding.ZeroPaddedValue | src/utils/utils.ts:2-4 | the padded string consists of digits and denotes `num` |
| Padding.ZeroPaddedLongEnough | src/utils/utils.ts:3 | a rendering already `size` long is returned unchanged |
| Padding.ZeroPaddedInjective | src/utils/utils.ts:1-5 | distinct numbers give distinct strings at the same size |
| Padding.ZeroPaddedExamples | src/utils/utils.ts:1-5 | (7, 2) gives "07", (31, 2) gives "31", (105, 2) gives "105" |
| GridLayout.SizingFor | src/modules/grid/components/Grid.tsx:39-55 | box width is the unit size, box height times 16/9 is the unit size, spacing is borderRatio units, and the margins centre boxes and gaps along both axes |
| GridLayout.CalculateSizing | src/modules/grid/components/Grid.tsx:26-56 | defined whenever no division is by zero units (zero columns or rows included, given a positive spacing); the unit size is at most both per-axis limits and equals one of them; the rest is `SizingFor` that unit size |
| GridLayout.HorizontalMargins | src/modules/grid/components/Grid.tsx:33-45 | each side margin is at least one gap (`borderRatio * unitSize`) |
| GridLayout.BoxesInsideHorizontally | src/modules/grid/components/Grid.tsx:33-45 | for non-negative sizes, every column of boxes lies within [0, width] |
| GridLayout.EmptyGrid | src/modules/grid/components/Grid.tsx:67-69 | with no columns or no rows the sizing is finite and no box is generated |
| GridLayout.GridInsideHorizontally | src/modules/grid/components/Grid.tsx:104-107 | every box the component renders lies within [0, width] |
| GridLayout.VerticalOverflowAsWritten | src/modules/grid/components/Grid.tsx:34-46 | as written, 1 column, 5 rows, 1000 x 99 and borderRatio 1 give box width 16, vertical margin -5 and a last row ending at 104, below the container |
| GridLayout.CalculateSizingCorrected | src/modules/grid/components/Grid.tsx:33-46 | as `CalculateSizing`, with the vertical limit counting every gap as `borderRatio` box widths |
| GridLayout.CorrectedMargins | src/modules/grid/components/Grid.tsx:42-46 | with the corrected limit both margins are at least one gap |
| GridLayout.CorrectedInsideHorizontally | src/modules/grid/components/Grid.tsx:42-45 | with the corrected limit, column i lies within [0, width] |
| GridLayout.CorrectedInsideVertically | src/modules/grid/components/Grid.tsx:43-46 | with the corrected limit, row j lies within [0, height] |
| GridLayout.CorrectedBoxesInside | src/modules/grid/components/Grid.tsx:42-46 | with the corrected limit, box (i, j) lies inside the container |
| GridLayout.CorrectedGridInside | src/modules/grid/components/Grid.tsx:104-107 | with the corrected limit, every rendered box lies inside the container |
| GridLayout.ColumnMajorLength | src/modules/grid/components/Grid.tsx:68-69 | n columns of `rows` cells give n * rows cells |
| GridLayout.ColumnMajorAt | src/modules/grid/components/Grid.tsx:68-69 | cell (i, j) sits at position i * rows + j |
| GridLayout.ColumnMajorMember | src/modules/grid/components/Grid.tsx:68-69 | every listed cell is the cell of some column and row in range |
| GridLayout.BoxesLayout | src/modules/grid/components/Grid.tsx:67-91 | exactly columns * rows boxes, column-major, box (i, j) at i * rows + j |
| GridLayout.BoxId | src/modules/grid/components/Grid.tsx:72 | definition of `box-i-j`; characterised by `BoxIdInjective` and `BuiltNames` |
| GridLayout.TileImage | src/modules/grid/components/Grid.tsx:73-74 | definition of the tile path `assets/tiles/NN.jpg` from `i + (columns * j) % 32` padded to two digits; characterised by `BuiltNames` and the `Padding` lemmas |
| GridLayout.BoxAt | src/modules/grid/components/Grid.tsx:70-86 | definition of box (i, j); characterised by `BoxesLayout`, `BoxesUniform`, `MakeBox` and the containment lemmas |
| GridLayout.MakeBox | src/modules/grid/components/Grid.tsx:70-86 | the pushed record is box (i, j): id `box-i-j`, x and y from the margins and steps, corner 8, tile image padded from `i + (columns * j) % 32` |
| GridLayout.BuiltNames | src/modules/grid/components/Grid.tsx:72-74 | the id and image strings built in the loop are those of box (i, j) |
| GridLayout.GenerateBoxes | src/modules/grid/components/Grid.tsx:58-91 | the nested loops return the column-major list of all boxes |
| GridLayout.BoxesUniform | src/modules/grid/components/Grid.tsx:75-85 | every box has width `boxWidth`, height `boxHeight` and corner 8 |
| GridLayout.BoxIdInjective | src/modules/grid/components/Grid.tsx:72 | distinct (column, row) pairs get distinct ids |
| Dynamics.HandGestures | src/modules/computervision/Dynamics.ts:57-76 | definition of `handGestures`: `HandGesturesOf` per frame, then `distinctUntilChanged`; never longer than the frames, no adjacent repeats; characterised by `HandGesturesOf`, `FirstHandOnly` and `HandActionsPerFrame` |
| Dynamics.HandGesturesOf | src/modules/computervision/Dynamics.ts:62-72 | no hand, or no gestures from the classifier, gives the empty list; otherwise the classifier's gestures for the first hand |
| Dynamics.FirstHandOnly | src/modules/computervision/Dynamics.ts:63-64 | hands after the first never affect the gestures |
| Dynamics.Scan | src/modules/computervision/Dynamics.ts:90-97 | definition of the `forEach`: the final threshold never drops below the start, and an unchanged threshold means an unchanged winner; characterised by `ScanBelow` and `ScanAtFirstMaximum` |
| Dynamics.Winner | src/modules/computervision/Dynamics.ts:85-105 | definition of the per-frame gesture: never the empty string; characterised by `WinnerWithoutCandidate`, `WinnerIsFirstMaximum` and `WinnerScoresHighest` |
| Dynamics.SingleHandGesture | src/modules/computervision/Dynamics.ts:78-111 | definition of `singleHandGesture`: `Winner` per gesture list, repeats dropped; never longer than the frames, no adjacent repeats |
| Dynamics.SingleHandWinner | src/modules/computervision/Dynamics.ts:85-105 | the loop returns `Winner` of the gesture list |
| Dynamics.ScanBelow | src/modules/computervision/Dynamics.ts:90-97 | with no score strictly above the threshold, the scan keeps winner and threshold |
| Dynamics.ScanAtFirstMaximum | src/modules/computervision/Dynamics.ts:90-97 | the scan ends on the earliest of the highest scores above the threshold |
| Dynamics.FirstMaximumExists | src/modules/computervision/Dynamics.ts:90-97 | a score above the threshold implies an earliest highest score |
| Dynamics.WinnerWithoutCandidate | src/modules/computervision/Dynamics.ts:85-105 | an empty list, or no score strictly above 8, gives "none" |
| Dynamics.WinnerIsFirstMaximum | src/modules/computervision/Dynamics.ts:90-102 | otherwise the earliest highest-scoring gesture wins (ties go to the earlier one; an empty name is reported as "none") |
| Dynamics.WinnerScoresHighest | src/modules/computervision/Dynamics.ts:90-102 | a reported gesture other than "none" scores above 8 and at least as high as every gesture of the list |
| Dynamics.WinnerExamples | src/modules/computervision/Dynamics.ts:90-97 | open 9 / closed 9.5 gives "closed hand"; open 9 / closed 9 gives "open hand"; a score of exactly 8 gives "none" |
| Dynamics.ActionOf | src/modules/computervision/Dynamics.ts:115-124 | definition of the `switch`; characterised by `ActionRoundTrip` |
| Dynamics.HandActions | src/modules/computervision/Dynamics.ts:113-128 | definition of `handActions`; never longer than the frames; characterised by `HandActionsClean` and `HandActionsPerFrame` |
| Dynamics.ActionRoundTrip | src/modules/computervision/Dynamics.ts:115-124 | "open hand" and "closed hand" are the only names with an action, and each action comes from exactly one of them |
| Dynamics.HandActionsClean | src/modules/computervision/Dynamics.ts:113-128 | the action stream never contains `none` and never repeats an action back to back |
| Dynamics.HandActionsPerFrame | src/modules/computervision/Dynamics.ts:57-128 | the action stream equals: per frame the action of the winner, `none` dropped, repeats dropped |
| Dynamics.SelectWrist | src/modules/computervision/Dynamics.ts:148-173 | no pose gives no wrist; a passing preferred wrist is chosen; the other side only when it passes and the preferred one does not; otherwise the preferred one anyway |
| Dynamics.DefaultThresholdAdmitsHalf | src/modules/computervision/Dynamics.ts:143-146 | at the default threshold 0.5 a preferred wrist at visibility exactly 0.5 is selected, yet the strict cursor test (lines 185-186) hides it |
| Dynamics.ZeroVisibilityFails | src/modules/computervision/Dynamics.ts:155-166 | undefined or zero visibility fails the test whatever the threshold |
| Dynamics.SelectionAgrees | src/modules/computervision/Dynamics.ts:151-170 | when exactly one wrist passes, both preferences choose it |
| Dynamics.CursorOf | src/modules/computervision/Dynamics.ts:182-188 | the cursor is visible iff the visibility is defined and strictly above 0.5 |
| Dynamics.CursorCentre | src/modules/computervision/Dynamics.ts:183-184 | landmark (0.5, 0.5) maps to screen point (960, 540) |
| Dynamics.CursorMonotone | src/modules/computervision/Dynamics.ts:183-184 | screen x strictly decreases as landmark x grows (mirror); screen y strictly increases with landmark y |
| Dynamics.CursorRoundTrip | src/modules/computervision/Dynamics.ts:183-184 | the mapping and `ScreenToLandmark` are inverse in both directions |
| Dynamics.UntilError | src/modules/computervision/Dynamics.ts:136-137 | the poses read are the frames before the first frame without `poseLandmarks`, each unwrapped, since indexing the missing list throws and ends the stream |
| Dynamics.UntilErrorAt | src/modules/computervision/Dynamics.ts:136-137 | frames from the first frame without a pose onward never matter |
| Dynamics.RightWrist | src/modules/computervision/Dynamics.ts:135-141 | definition of `rightWrist`: averaged windows of three right wrists (index 16) over the poses read; its length is two fewer than the poses read; characterised by `RightWristWindows`, `ErrorEndsStream` and `SteadyWrist` |
| Dynamics.Cursor | src/modules/computervision/Dynamics.ts:180-190 | definition of `cursor`: `CursorOf` over `RightWrist`, one point per averaged wrist; characterised by `CursorWindows` and `HalfVisibleWristHidden` |
| Dynamics.RightWristWindows | src/modules/computervision/Dynamics.ts:135-141 | output k exists only when frames k, k+1, k+2 all have a pose, and it is the average of their right wrists |
| Dynamics.ErrorEndsStream | src/modules/computervision/Dynamics.ts:136-137 | once a frame has no pose, the wrist and cursor streams are those of the frames before it: nothing later is emitted |
| Dynamics.CursorWindows | src/modules/computervision/Dynamics.ts:180-190 | when frames 0..k+2 all have a pose, cursor k exists and is the screen point of the average of their right wrists |
| Dynamics.SteadyWrist | src/modules/computervision/Dynamics.ts:135-141 | a right wrist held still at a qualifying visibility is reported unchanged |
| Dynamics.HalfVisibleWristHidden | src/modules/computervision/Dynamics.ts:185-186 | a wrist held at visibility exactly 0.5 is averaged but its cursor is hidden, since the cursor test is strict |
| SelectableBoxes.Respond | src/modules/grid/components/SelectableBox.tsx:71-117 | definition of the handler on values: a package starts animations (at most two) iff it is addressed to the box, and a foreign package leaves the flags; characterised by the lemmas below |
| SelectableBoxes.ForeignPackageIgnored | src/modules/grid/components/SelectableBox.tsx:72 | a package for another id changes neither flag and starts no animation |
| SelectableBoxes.HoverMessages | src/modules/grid/components/SelectableBox.tsx:74-89 | `over` sets over, `off` clears it; `selected` is unchanged |
| SelectableBoxes.SelectionMessages | src/modules/grid/components/SelectableBox.tsx:90-112 | `select` sets selected, `unselect` clears it; `over` is unchanged |
| SelectableBoxes.PushWhen | src/modules/grid/components/SelectableBox.tsx:90-106 | the press animation runs iff the message is `select`, or `unselect` while hovered; `unselect` while not hovered resets the scale to 1 |
| SelectableBoxes.ScaleFollowsHover | src/modules/grid/components/SelectableBox.tsx:74-106 | except after `select`, the last scale started is 1.24 iff the box is hovered, else 1 |
| SelectableBoxes.HighlightFollowsSelection | src/modules/grid/components/SelectableBox.tsx:93-111 | after `select` / `unselect` the last animation sets the highlight to 0.6 iff selected, else 0 |
| SelectableBoxes.RunDecidedByLastMessages | src/modules/grid/components/SelectableBox.tsx:71-117 | after any run of packages, `selected` is decided by the last select/unselect for the box and `over` by the last over/off (or unchanged if none) |
| SelectableBoxes.SelectThenUnselect | src/modules/grid/components/SelectableBox.tsx:90-112 | select then unselect leaves an unselected box unselected, whatever other boxes are sent in between |
| SelectableBoxes.SelectableBox.constructor | src/modules/grid/components/SelectableBox.tsx:49-51 | both flags start false; the id is the given one |
| SelectableBoxes.SelectableBox.SetId | src/modules/grid/components/SelectableBox.tsx:55-57 | later packages are matched against the new id; the flags stay |
| SelectableBoxes.SelectableBox.Handle | src/modules/grid/components/SelectableBox.tsx:71-117 | the new flags and the animations started are those of `Respond` on the old flags and id; the id is unchanged |

## Left out

- Camera capture, the pose and hand-tracking models, canvas drawing and polling are external I/O. Frames enter the model as sequences of values.
- `estimateHandGesture` wraps a gesture-classification library. It is a function parameter `estimate`.
- The rxjs machinery is not modelled: subjects, subscriptions, and timestamps from `getNow` (`getNow` is not part of this model). The stream elements carry no time.
- The flush of partial buffers by `bufferCount` when a stream completes is not modelled. The camera streams never complete.
- The smoothing stage of `eitherWrist` (`bufferCount(6, 1)` and `averageLandmarks2`) is not part of this model, and neither is the type of its annotated output. Only the selection map is modelled (`Dynamics.SelectWrist`).
- `ambidextrousCursor` applies the same mapping, `Dynamics.CursorOf`, to that smoothed stream. The stream itself is not modelled.
- The `console.log` of gesture names has no effect on results.
- Hit-testing and interaction modes (standard, proximity, focus) are not modelled. Neither is deciding which tile receives `over` / `select`. That logic lives in a module that is not part of this model.
- React rendering, styling and the other UI components are not modelled.
- Animation durations and easing are not modelled. `Push` stands for the two-step press (scale 1.12, then 1.24). The model records the animations in the order they are started, not their asynchronous completion.
- Numbers are exact reals. IEEE-754 rounding, `Infinity` and `NaN` are not modelled.
- GridLayout.CalculateSizing: requires a non-negative `borderRatio`, positive when there are no columns or no rows (`SizingDefined`). The settings menu bounds columns to 1..6, rows to 1..5 and spacing to 0..2. With zero columns or rows and a positive spacing the source returns a finite sizing and renders no box; this is modelled (`GridLayout.EmptyGrid`). With zero columns or rows and zero spacing the source divides by zero and yields `Infinity`/`NaN`, which reals cannot express. A negative spacing is outside the settings range and is not modelled.
- Padding.PadLeadingZeros: `num` is a non-negative integer, the only kind of number it is called with. Negative and fractional renderings are not modelled. JavaScript's exponent form (from 1e21) and its inexact integers above 2^53 are not modelled either; the grid passes tile numbers below 64.
- Dynamics.RightWrist: a present pose is a landmark list with at least 17 entries (the `Pose` type). The pose model supplies 33, and `rightWrist` reads only index 16. A frame with no `poseLandmarks` is modelled: it ends the `rightWrist` and `cursor` streams with an error (`Dynamics.UntilError`, `Dynamics.ErrorEndsStream`). The error notification itself is not modelled as a value.
- Dynamics.SelectWrist: a present pose has at least 17 entries, as above, since `eitherWrist` reads indexes 15 and 16 once it has checked that the landmark list exists.
- Averaging.AverageLandmarks: the input is an immutable sequence, so "the input is not modified" holds by construction. The in-place updates of the fresh accumulator are modelled as reassignment of a local record.

## Findings

| source | as written | input that shows it | evidently intended | confidence | as-written member | corrected member |
|---|---|---|---|---|---|---|
| src/modules/grid/components/Grid.tsx:34-35 | `vertUnits` divides the gap term by the aspect ratio. The vertical margin (lines 43-44) and the box positions use gaps of `borderRatio * unitSize`, unscaled. | columns 1, rows 5, width 1000, height 99, borderRatio 1 give box width 16, vertical margin -5, and a last row ending at 104 > 99 | `vertUnits = rows / aspectRatio + (rows + 1) * borderRatio`, so the boxes, the gaps and one gap of margin at each end fit the height | not executed | GridLayout.VerticalOverflowAsWritten | GridLayout.CorrectedGridInside |
