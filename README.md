# Freetron answer-sheet grading, modelled in Dafny

Freetron grades multiple-choice answer sheets. A teacher uploads a PDF of
scanned forms through a web page. Each page is turned into a grayscale image,
and black regions are labelled as connected blobs. The boxes down the left
margin are found by walking blob outlines, and the student ID is read from the
filled bubbles on the ID rows. Every student page is then scored against the
page that carries the key's ID.

This project models the core of that pipeline:

- coordinates (`Data`) and the tuning constants (`Options`);
- the integer and vector helpers (`MathUtils`);
- the ordered-map helpers (`MapUtils`);
- the shift buffer (`ForgetWindow`);
- the union-find structure (`DisjointSets`);
- connected-component labelling (`Blobs`);
- the box-edge search, direction vote and diagonal learning (`Box`);
- outline tracing (`Outline`);
- ID reading (`Read`);
- the shade histogram (`Histogram`);
- image loading, marks and saving (`Pixels`);
- forms and their logs (`Forms`);
- finding a form, progress and the grading report (`Processor`);
- the server's account check (`Content`);
- the browser's upload-page logic (`Script`).

State the source changes in place is modelled by classes with `modifies`
clauses. Algorithms with loops are methods, proved against specification
functions, and the lemmas about those functions state what the program
promises.

## Model

| member | source | states |
|---|---|---|
| Data.Eq | data.cpp:8-11 | two coordinates are `==` exactly when both components agree |
| Data.NotEq | data.cpp:13-16 | `!=` is exactly the negation of `==` |
| Data.LessIsStrictTotalOrder | data.h:27-29 | the y-then-x scan order is irreflexive and transitive, and exactly one of `<`, `==`, `>` holds between any two points |
| Data.NatToStringRoundTrip | data.cpp:5 | a non-negative number is written as a non-empty run of digits that reads back as the number |
| Data.IntToStringRoundTrip | data.cpp:5 | every int is written as text that reads back as the same int and holds no ',' or ')' |
| Data.ShowRoundTrip | data.cpp:3-6 | `operator<<` writes "(x,y)", and that text reads back as the same point |
| MathUtils.CRem | math.cpp:66 | C++ `%` leaves a remainder smaller than the divisor in magnitude, with the sign of the dividend |
| MathUtils.DivRemIdentity | math.cpp:66 | the truncating quotient and the remainder put the dividend back together |
| MathUtils.RoundKeepsMultiples | math.cpp:64-69 | `round(x, r)` leaves a multiple of r unchanged |
| MathUtils.RoundIsLeastMultipleAbove | math.cpp:62-72 | for x >= 0 and r > 0, `round` returns the least multiple of r not below x, so it rounds up and not to the nearest multiple its comment promises |
| MathUtils.RoundIdempotent | math.cpp:64-72 | for x >= 0 and r > 0, rounding twice gives the same as rounding once |
| MathUtils.RoundNegativeOvershoots | math.cpp:64-72 | for x < 0 and r > 0 with a non-zero C++ remainder, `round` returns a multiple of r strictly between x + r and x + 2r, one multiple past the least one above x (round(-7, 5) is 0) |
| MathUtils.MaxValue | math.cpp:45-51 | `max_value` is 0 for an empty vector, otherwise an element that no element exceeds |
| MathUtils.MinValue | math.cpp:54-60 | `min_value` is 0 for an empty vector, otherwise an element that no element is below |
| MathUtils.SumBounds | math.cpp:39 | bounds on every element bound the sum by the count times the bounds |
| MathUtils.AverageBounds | math.cpp:36-42 | any bounds on the elements of a non-empty vector bound its average |
| MathUtils.AverageBetweenMinAndMax | math.cpp:36-60 | the average of a non-empty vector lies between `min_value` and `max_value`; an empty vector averages to 0 |
| MapUtils.LookupMeaning | maputils.h:61-72 | lookup succeeds exactly for the keys present, and returns a value stored under the key |
| MapUtils.LookupFirst | maputils.h:61-72 | a key that no earlier entry has finds the value at its own position |
| MapUtils.LookupAt | maputils.h:61-72 | in an ordered map the key at position i finds the value at position i |
| MapUtils.PutKeySet | read.cpp:151-152 | `m[k] = v` adds k to the keys and no other key |
| MapUtils.PutKeysIncreasing | read.cpp:151-152 | `m[k] = v` keeps the entries in strictly increasing key order |
| MapUtils.PutLookup | read.cpp:151-152 | after `m[k] = v`, k finds v and every other key finds what it found before, so a later assignment overwrites |
| MapUtils.MinKeyIndex | maputils.h:39 | `std::min_element` by key finds the first entry whose key is not above any other |
| MapUtils.MapMinValueOfMap | maputils.h:36-45 | `mapMinValue` is the default for an empty map, otherwise the value under the smallest key, which is the first entry |
| MapUtils.MaxValueIndex | maputils.h:52 | `std::max_element` by value finds the first entry whose value no entry exceeds |
| MapUtils.MapMaxValueKeyIsFirstMax | maputils.h:49-58 | `mapMaxValueKey` returns the key of the first entry holding a maximal value |
| MapUtils.CountValue | maputils.h:61-72 | the number of entries holding a value is at most the number of entries |
| MapUtils.MapCountValue | maputils.h:61-72 | the counting loop returns the number of entries whose value equals `val` |
| MapUtils.CountValueAtLeastOne | maputils.h:61-72 | a value held by some entry is counted at least once |
| MapUtils.CountOfMaxValue | maputils.h:49-72 | an empty map counts nothing, and in a non-empty map the maximal value is counted at least once |
| MapUtils.Values | maputils.h:79-128 | one value per entry, and position k holds the mapped value of the k-th entry in key order |
| MapUtils.IterationVisitsValues | maputils.h:95-122 | walking from `begin()` visits the mapped values in key order, and meets `end()` after exactly \|m\| steps |
| ForgetWindow.Window | forget.h:47-57 | after any history the buffer holds exactly `sz` slots |
| ForgetWindow.WindowShift | forget.h:47-57 | remembering one more item drops the oldest slot and appends the item |
| ForgetWindow.WindowContents | forget.h:1-12 | once `sz` items were remembered, the buffer is the last `sz` of them in order; before that it is padded in front with the default |
| ForgetWindow.Forget.constructor | forget.h:32-33 | a new buffer holds `sz` copies of the default, with a count of 0 |
| ForgetWindow.Forget.Remember | forget.h:47-57 | counts one more call, shifts every slot one place toward the front and stores the item last |
| DisjointSets.JoinKeepsWellformed | disjointset.h:243-256 | re-pointing the smaller set at the larger keeps every condition `selfcheck()` checks |
| DisjointSets.JoinKeepsRoots | disjointset.h:245-256 | after the join, every representative still represents itself |
| DisjointSets.JoinKeepsRootLists | disjointset.h:245-256 | after the join, a representative's list holds exactly the items pointing to it, and their own lists are empty |
| DisjointSets.JoinKeepsListed | disjointset.h:245-256 | after the join, every non-representative has an empty list and sits in its representative's list |
| DisjointSets.JoinSame | disjointset.h:245-256 | after the join, two elements share a set exactly when they did before, or one was in each joined set |
| DisjointSets.JoinListSize | disjointset.h:245-256 | the merged list's length is the sum of the two lists' lengths plus one |
| DisjointSets.MergeTail | disjointset.h:254-256 | the three assignments after the loop complete the joined representatives and lists |
| DisjointSets.SmallListIsSmallSet | disjointset.h:245-249 | the members the loop re-points are exactly the elements whose representative is `small`, other than `small` itself |
| DisjointSets.JoinSpecWellformed | disjointset.h:215-257 | `join` keeps every `selfcheck()` condition and the set of stored elements |
| DisjointSets.JoinSpecMergesSets | disjointset.h:215-257 | after `join(e1, e2)` with both stored, e1 and e2 share a set and no other sets merge; with either missing nothing changes |
| DisjointSets.JoinSpecUnionBySize | disjointset.h:228-256 | e1 and e2 end with one representative: e1's when its list was strictly longer, e2's otherwise (ties included); the merged list has both lengths plus one |
| DisjointSets.AddKeepsWellformed | disjointset.h:204-212 | adding a new non-default element keeps every `selfcheck()` condition and leaves the existing sets as they were |
| DisjointSets.DisjointSet.constructor | disjointset.h:115-117 | a new structure is empty, passes `selfcheck()` and remembers the not-found value |
| DisjointSets.DisjointSet.Find | disjointset.h:259-272 | `find` returns the not-found value exactly for elements not stored; otherwise it returns the element's own representative, which represents itself |
| DisjointSets.DisjointSet.Add | disjointset.h:203-212 | the default element is refused (`ElementIsDefault`) and an existing element changes nothing; otherwise a singleton set is added; `selfcheck()` is kept |
| DisjointSets.DisjointSet.MoveMembers | disjointset.h:245-249 | every member of the small list now points to large and is added to large's list, and nothing else changes |
| DisjointSets.DisjointSet.Join | disjointset.h:214-257 | the new state is `JoinSpec` of the old one, and `selfcheck()` is kept |
| DisjointSets.DisjointSet.MergeRoots | disjointset.h:243-256 | merging two distinct representatives produces the joined representatives and lists |
| Blobs.Widen | blobs.cpp:97-105 | the widened bounds take one of the two firsts and one of the two lasts, and enclose every pixel either old object's bounds enclosed |
| Blobs.BackNeighbour | blobs.cpp:25-30 | each of the four neighbours tried is adjacent and comes earlier in scan order |
| Blobs.Blobs.Label | blobs.cpp:111-118 | `label(p)` is the stored label strictly inside the image, and the default label on row 0, column 0 and outside |
| Blobs.Blobs.constructor | blobs.cpp:5-72 | after the scan, exactly the black pixels carry a non-default label, every black pixel shares its label with each black left/up-left/up/up-right neighbour, and every labelled pixel lies within its object's first/last bounds |
| Blobs.Blobs.RowDone | blobs.cpp:15-17 | finishing a row and starting the next keeps the scan invariant |
| Blobs.Blobs.ScanDone | blobs.cpp:15-71 | once all rows are scanned, the invariant gives the constructor's labelling properties |
| Blobs.Blobs.ScanPoint | blobs.cpp:19-68 | handling one pixel keeps the scan invariant one pixel further on, and `next_label` never decreases |
| Blobs.Blobs.SkipBackground | blobs.cpp:21 | a pixel that is not black keeps the default label and the invariant moves on |
| Blobs.Blobs.JoinNeighbour | blobs.cpp:35-49 | the pixel copies its black neighbour's label and becomes the latest pixel of that object |
| Blobs.Blobs.JoinKeepsScan | blobs.cpp:39 | labelling the next pixel keeps the scanned pixels' agreement and leaves unscanned pixels unlabelled |
| Blobs.Blobs.JoinKeepsObjects | blobs.cpp:49 | making the pixel the object's last keeps every labelled pixel within its object's bounds |
| Blobs.Blobs.NewObject | blobs.cpp:61-68 | a pixel with no black back-neighbour opens object `next_label` with itself as first and last pixel |
| Blobs.Blobs.MergeNeighbour | blobs.cpp:52-58 | after the i-th neighbour is checked, the pixel agrees with its first i+1 black neighbours |
| Blobs.Blobs.RenameAll | blobs.cpp:82-95 | because every pixel of the old object lies within its bounds, renaming within the bounds renames all of its pixels |
| Blobs.Blobs.RenameKeepsScan | blobs.cpp:55-57 | renaming one non-default label to another leaves exactly the same pixels labelled |
| Blobs.Blobs.RenameKeepsObjects | blobs.cpp:97-108 | after the rename, every labelled pixel is within its object's widened bounds, and the old object is gone |
| Blobs.Blobs.RenameKeepsAgreement | blobs.cpp:52-58 | neighbour pairs that agreed still agree after the rename, and the pixel now agrees with the renamed neighbour |
| Blobs.Blobs.SettledDone | blobs.cpp:52-60 | once all four neighbours are checked, the scan invariant holds one pixel further on |
| Blobs.Blobs.SwitchLabel | blobs.cpp:76-109 | relabels old to new exactly at the pixels within the old object's scan-order bounds, widens the new object's bounds and erases the old object |
| Box.MakeSquare | box.cpp:18-31 | for a non-negative centre and radius, the clamped corners lie in the image and the midpoint lies between them as their truncated mean |
| Box.SquareIsClippedBox | box.cpp:18-38 | `in` holds for every image pixel within r of the centre on both axes, and only for image pixels not beyond x+r, y+r |
| Box.FirstOutside | box.cpp:402-409 | the first neighbour without the label, or 8 when every neighbour has it |
| Box.Rot | box.cpp:421 | stepping clockwise stays within the eight neighbours |
| Box.RotReaches | box.cpp:412-438 | every neighbour can be reached by clockwise steps from any other |
| Box.NextInside | box.cpp:416-436 | counting clockwise steps, finds the first neighbour with the label and none before it |
| Box.EdgeSpec | box.cpp:385-393 | -1 exactly when the neighbours are all inside or all outside; otherwise an outside neighbour whose clockwise successor is inside, the first one reached clockwise from the first outside neighbour |
| Box.FindEdge | box.cpp:394-441 | `findEdge`, with the clockwise step wrapping 7 to 0, returns `EdgeSpec` of the neighbours |
| Box.FirstOutsideIndex | box.cpp:398-409 | the first loop yields the first outside neighbour, or -1 |
| Box.WalkClockwise | box.cpp:412-438 | starting from the first outside neighbour, the walk returns `EdgeSpec` |
| Box.EdgeSpecFrom | box.cpp:412-438 | with j the first clockwise step that lands inside, the edge is the neighbour one step before it, or -1 |
| Box.NextInsideIs | box.cpp:416-436 | any j that has only outside neighbours before it and an inside neighbour at it is the result of `NextInside` |
| Box.EdgeLoopAsWrittenSteps | box.cpp:416-437 | the loop as written finds the first inside neighbour before the table's end, otherwise runs off the table unless it started at 0 |
| Box.FindEdgeAsWrittenOverruns | box.cpp:433 | as written, `findEdge` reads `matrix[8]` exactly when neighbours 0..k-1 are inside and k..7 outside (0 < k < 8); on all other inputs it agrees with `EdgeSpec` |
| Box.FindEdgeOverrunExample | box.cpp:433 | neighbour 0 inside and 1 to 7 outside: the code as written reads past the table, while the intended answer is 7 |
| Box.Tally | box.cpp:454-465 | each direction counts at most one vote per remembered move |
| Box.CountValueOfFour | box.cpp:474 | `mapCountValue` over the four sums counts entry by entry |
| Box.DirectionIsUniqueMax | box.cpp:446-478 | the returned direction has a strictly greater tally than every other; `Unknown` means two directions share the greatest tally |
| Box.FindDirection | box.cpp:446-478 | tallying the window's moves in order and choosing the maximum returns `DirectionOf` the moves |
| Box.Middle | box.cpp:454-465 | each direction has exactly one neighbour that counts toward it alone |
| Box.TurnedAroundIsReversal | box.cpp:482-497 | `turnedAround` holds exactly when the move reverses the middle move of the direction, and never for `Unknown` |
| Box.MatrixInjective | box.cpp:6-15 | no move occurs twice in the neighbour table |
| Box.MoveIndexOf | box.cpp:6-15 | a move's position in the table is recovered from the move |
| Box.MatrixOpposite | box.cpp:3-15 | four clockwise steps on gives the opposite move |
| Box.JumpFromFinds | box.cpp:342-344 | the loop from sample i finds a jump exactly when some later consecutive pair differs by more than `DIAG_ERROR` |
| Box.AbsurdDiagonalIff | box.cpp:332-347 | the samples are absurd exactly when there are fewer than two, or some consecutive pair differs by more than `DIAG_ERROR` |
| Box.LearnStepKeeps | box.cpp:308-324 | at most `DIAG_COUNT` samples are kept, and an adopted diagonal never changes |
| Box.LearnedCollects | box.cpp:311-314 | the first `DIAG_COUNT` samples are all collected |
| Box.LearnedAdopts | box.cpp:316-323 | with `DIAG_COUNT` samples and no jump, the next sample is adopted; with a jump, the samples are discarded |
| Box.BoxData.constructor | box.h:34-42 | a new `BoxData` has width and diagonal 0 and no samples |
| Box.BoxData.LearnDiagonal | box.cpp:308-324 | one learning step updates (diag, diags) as `LearnStep`, never touching width or an adopted diagonal |
| Outline.Back | outline.cpp:121-122 | the neighbour before i wraps 0 to 7, and its clockwise successor is i |
| Outline.FirstCandidate | outline.cpp:119-133 | the first neighbour in the object whose predecessor is outside and not on the path, and none before it |
| Outline.IndexSpec | outline.cpp:113-136 | `findIndex` returns -1 or a neighbour index |
| Outline.IndexSpecMeaning | outline.cpp:110-136 | -1 exactly when no neighbour qualifies; otherwise an outside neighbour, not yet on the path, whose clockwise successor is in the object |
| Outline.BacktrackFrom | outline.cpp:89-105 | backtracking returns a tried point together with its own index |
| Outline.BacktrackFromOrder | outline.cpp:83-105 | returns p if p has an index, otherwise the latest path entry with one, and -1 exactly when none of them has one |
| Outline.IndexOf | outline.cpp:113-136 | `findIndex` as a function of the point agrees with `IndexSpec` everywhere |
| Outline.BacktrackTriesAllButFirst | outline.cpp:76-108 | `findEdge` returns p or a path entry after the first, with its index; -1 exactly when p and all those entries give -1 |
| Outline.WalkDistinct | outline.cpp:44-70 | a walk that only steps to unvisited pixels outside the object keeps the path repeat-free and outside the object |
| Outline.WalkEnds | outline.cpp:44-70 | the walk extends the path by at most the iterations left plus one, and succeeds exactly when it stops on `end`, which no earlier new pixel is |
| Outline.FindEdgeStep | outline.cpp:47 | the constructor's step is `findEdge` at the current position |
| Outline.FindEdgeMovesOutward | outline.cpp:56-59 | `findEdge` moves only to a pixel outside the object that is not on the path yet |
| Outline.TracedFacts | outline.cpp:19-74 | a background start gives an empty, failed outline; otherwise the path has at most `max_length`+1 distinct pixels outside the object, and it succeeds exactly when it ends back at (x, y-1) |
| Outline.TracedOutward | outline.cpp:44-70 | the traced path is repeat-free and lies outside the object |
| Outline.TracedEnds | outline.cpp:34-73 | the traced path is bounded by `max_length`+1, and it succeeds exactly when its last pixel is the start |
| Outline.Outline.constructor | outline.cpp:19-74 | the object's label is the start point's, and the path and success flag are those `Traced` gives |
| Outline.Outline.FindIndex | outline.cpp:113-136 | the scan returns `IndexSpec` of the point |
| Outline.Outline.FindEdge | outline.cpp:77-108 | the backtracking loop returns `Backtrack` of the point |
| Read.VerticalIff | read.cpp:34-45 | the boxes are vertical exactly when no box in the scanned range drifts more than `MAX_ERROR` from the one before |
| Read.LastRow | read.cpp:145-153 | the last row on which a position was found filled, or none |
| Read.PutAllLookup | read.cpp:151-152 | after storing v at each position, those positions find v and the others are unchanged |
| Read.PutAllKeeps | read.cpp:151-152 | storing digits keeps the map ordered and its values in range |
| Read.PutValues | read.cpp:152 | storing a value in range keeps all values in range |
| Read.RowsFilledOrdered | read.cpp:145-153 | the `filled` map is ordered by position and holds digits of the rows scanned |
| Read.RowsFilledLookup | read.cpp:145-153 | each position holds the digit of the last row on which it was filled, since a later row overwrites |
| Read.DigitString | read.cpp:159-163 | a digit list becomes a decimal text of the same length |
| Read.DigitsValueIsDecimal | read.cpp:159-163 | a digit list's value is what its decimal text reads as |
| Read.DigitStep | read.cpp:162 | adding one more digit with its place value gives the value of one more digit |
| Read.FindID | read.cpp:112-166 | `findID` returns `IdSpec` of the boxes and the filled positions |
| Read.RecordFilled | read.cpp:145-153 | the first loop builds exactly the `filled` map of the rows |
| Read.PlaceValues | read.cpp:155-163 | the second loop sums each digit times its place value, so it returns the digits' decimal value |
| Read.FindIDReadsDigits | read.cpp:112-166 | 0 when there are too few boxes or they are skewed; otherwise the digits of the last row filled at each position, in increasing x order, read as one decimal number |
| Histogram.FlatLength | histogram.cpp:11-13 | a rectangular image has width × height pixels |
| Histogram.Bins | histogram.cpp:9 | the graph has 256 bins |
| Histogram.BinsCount | histogram.cpp:15-19 | bin s counts exactly the pixels of shade s |
| Histogram.PrefixBump | histogram.cpp:19 | counting one pixel adds one to every cumulative sum from its shade on |
| Histogram.BinsSum | histogram.cpp:9-19 | the bins add up to the number of pixels counted |
| Histogram.BinsNonNegative | histogram.cpp:9-19 | no bin is negative |
| Histogram.HistogramOfImage | histogram.cpp:3-32 | an image without rows gives all-zero bins; a rectangular image gives bins that count its shades and add up to `total` |
| Histogram.MedianFrom | histogram.cpp:44-55 | the median scan returns a shade, or 0 |
| Histogram.MedianFromIsFirst | histogram.cpp:44-55 | the scan stops at the first shade whose cumulative count exceeds total/2 |
| Histogram.MedianMeaning | histogram.cpp:40-55 | the median is the first shade whose cumulative count exceeds total/2, or 0 when none does; with counts summing to a positive total, some shade always does |
| Histogram.FirstOverTenth | histogram.cpp:84-92 | the breakpoint scan stops within the graph |
| Histogram.FirstOverTenthIsFirst | histogram.cpp:84-92 | the scan stops at the first shade whose cumulative share is over a tenth |
| Histogram.BreakpointMeaning | histogram.cpp:80-92 | the breakpoint is the last shade up to which at most a tenth of the pixels lie, and the next shade takes it over a tenth; it is 0 when the first bin already does |
| Histogram.Histogram.constructor | histogram.cpp:3-32 | `total` is width × height and the graph is `Bins` of the pixels in scan order |
| Histogram.Histogram.BalancedThreshold | histogram.cpp:35-108 | returns `initial` unchanged; the median and breakpoint it computes are the specified ones |
| Pixels.RowMajorBound | pixels.cpp:39-59 | a row-major position is within the pixel count exactly when its row is within the image |
| Pixels.GrayImage | pixels.cpp:38-59 | the loaded image has h rows of w pixels |
| Pixels.GrayRow | pixels.cpp:39-59 | each row of the loaded image holds the gray value of each of its pixels |
| Pixels.GrayAt | pixels.cpp:47 | pixel (x, y) holds the rounded-down mean of RGB triple y·w + x |
| Pixels.LoadIsRowMajor | pixels.cpp:43-59 | the i-th RGB triple lands at (i mod w, i div w) |
| Pixels.DrawnWithoutMarks | pixels.cpp:90-114 | without marks, the saved picture is the image itself |
| Pixels.RGB | pixels.cpp:139-145 | each pixel becomes three bytes |
| Pixels.RGBAt | pixels.cpp:139-145 | all three bytes of a pixel are its gray value |
| Pixels.LayoutLength | pixels.cpp:126-147 | the buffer has w·h·3 bytes |
| Pixels.LayoutAt | pixels.cpp:132-147 | the rows are written bottom-up: pixel (x, y) is at bytes 3((h-1-y)w + x) to +2, each its gray value |
| Pixels.Pixels.Empty | pixels.cpp:6-9 | the placeholder image is 0 × 0, with no marks, and not loaded |
| Pixels.Pixels.Decode | pixels.cpp:22-61 | a decoded image becomes the loaded `GrayImage`, with no marks |
| Pixels.Pixels.Mark | pixels.cpp:81-86 | a point strictly inside the image is appended to the marks; any other point is ignored; nothing else changes |
| Pixels.Pixels.Save | pixels.cpp:88-147 | the buffer handed to the encoder is the bottom-up layout of the image with a cross drawn at each mark |
| Pixels.DrawMarks | pixels.cpp:90-114 | drawing a cross at each mark in turn gives `Drawn` |
| Pixels.RGBBuffer | pixels.cpp:126-147 | the buffer loop produces the bottom-up `Layout` |
| Pixels.PutRow | pixels.cpp:136-146 | one row writes three equal bytes per pixel at the running position, leaving earlier bytes unchanged |
| Pixels.DrawCross | pixels.cpp:95-109 | the four arm loops paint exactly the pixels the cross covers, and leave every other pixel unchanged |
| Pixels.Load | pixels.cpp:12-70 | a decoder failure is "could not read image"; a negative size is "use a smaller image, can't store dimensions in int"; otherwise the loaded grayscale image |
| Pixels.BlackOfLoaded | pixels.cpp:72-79 | inside a loaded image, a pixel is black exactly when its three channels sum to less than 3 · `GRAY_SHADE` |
| Pixels.BlackOutside | pixels.cpp:74-76 | outside the image, `black` returns the default |
| Forms.LogTypeName | log.cpp:27-36 | every log type prints as a non-empty name |
| Forms.Form.Placeholder | forms.h:63-65 | the processor's placeholder form has id -1, key 0, pages -1, nothing done |
| Forms.Form.constructor | forms.h:69-73 | a new form keeps its id, key and file name, with unknown pages and nothing done |
| Forms.Form.Move | forms.cpp:22-30 | the moved-to form takes over id, key, page count, file name, images and log text |
| Forms.Form.Log | forms.cpp:13-20 | appends "<type>: msg" and a newline to the log, and changes nothing else |
| Forms.FormNotEq | forms.cpp:8-11 | `!=` on forms is the negation of `==` |
| Forms.FormEqIsIdEquality | forms.cpp:3-6 | form equality is an equivalence, and `FormPredicate(id)` accepts exactly the forms equal to one with that id |
| Processor.KeyIndex | processor.cpp:318-347 | the first page carrying the key's id, or none when no page does |
| Processor.KeyCount | processor.cpp:318-326 | the pages carrying the key's id are at most all pages |
| Processor.KeyCountPositive | processor.cpp:318-348 | there is a key page exactly when some page carries the key's id |
| Processor.NonBlank | processor.cpp:333-340 | the filled-in answers are at most all answers |
| Processor.Given | processor.cpp:400-407 | every readable page's id is listed, every listed id is a readable page's id (never `DefaultID`), and there is at most one per page |
| Processor.GivenInPageOrder | processor.cpp:403-405 | the ids are listed in page order: two runs of pages list the first run's ids and then the second's |
| Processor.GivenOfPage | processor.cpp:403-405 | a single page lists its id exactly when the id is not `DefaultID` |
| Processor.NonBlankPrefix | processor.cpp:373-375 | the key's filled-in answers among the first n questions are at most all its filled-in answers |
| Processor.SameAtMostFilled | processor.cpp:370-382 | a page matches the key at most as often as the key is filled in |
| Processor.ScoreBounds | processor.cpp:386 | every score is a fraction between 0 and 1 |
| Processor.ScoreBetween | processor.cpp:386 | `same/total` lies between 0 and 1, and is 1 when every filled-in answer matches |
| Processor.SameAsKey | processor.cpp:370-382 | the key matched against itself matches at every filled-in answer |
| Processor.KeyScoresFull | processor.cpp:370-386 | a page answering exactly as the key scores 1 |
| Processor.ShownLength | processor.cpp:373-378 | a student's row shows one answer per question the key filled in |
| Processor.ScoresByLastPage | processor.cpp:355-398 | the scores are listed in increasing id order, and an id repeated on several pages keeps the score of its last page |
| Processor.PercentBounds | processor.cpp:237-242 | part way through, the percentage done rounded down; all done, 99; always 0 to 99 |
| Processor.FindIn | processor.cpp:194-204 | the first form with the id, or none when no form has it |
| Processor.Processor.constructor | processor.cpp:3-12 | a new processor has no forms and a placeholder form with id -1 |
| Processor.Processor.FindFormMeaning | processor.cpp:194-210 | `findForm` returns the first form with the id, or the placeholder; `done` holds for an unknown id and for a finished form |
| Processor.Processor.StatusWaitProgress | processor.cpp:212-243 | for an unfinished form with pages, progress is the percentage done rounded down and never 100 (99 when all are done); 100 when the processor is exiting |
| Processor.Processor.Print | processor.cpp:297-413 | the report is `PrintSpec`: nothing for the placeholder, the readable ids without a key page, otherwise the key, skipped key pages, one row per other page and the scores; the log text follows |
| Processor.FindKey | processor.cpp:314-348 | the first key page is the key, `total` counts its filled-in answers, and every later key page is skipped |
| Processor.GradePages | processor.cpp:354-388 | a failure row for each unreadable page, a row and a score for each other non-key page |
| Processor.ListGiven | processor.cpp:400-407 | the ids of the readable pages, in page order |
| Processor.CountFilled | processor.cpp:333-340 | counts the answers that are not `Blank` |
| Processor.ScorePage | processor.cpp:370-382 | counts the matches and shows the answers at the positions the key filled in |
| Content.ValidMeaning | website/content.cpp:10-23 | the server accepts exactly a 64-character digest with a 4-to-30-character name made of letters, digits, '-', '_' and '.' |
| Content.ServerAndClientAgree | website/content.cpp:8-23 | the server and `validUser` agree on names; a digest of the wrong length is always refused |
| Script.ValidUserMeaning | website/files/script.js:22-30 | a name passes exactly when it has 4 to 30 characters, each a letter, digit, '-', '_' or '.' |
| Script.ValidKeyMeaning | website/files/script.js:204-212 | a key passes exactly when it has 1 to 10 characters, all digits |
| Script.ValidKeyValue | website/files/script.js:204-212 | a valid key is a number below 10^10 |
| Script.Lower | website/files/script.js:201 | lower-casing yields a lowercase letter exactly for letters |
| Script.LowerAll | website/files/script.js:201 | lower-casing keeps the length |
| Script.LastThree | website/files/script.js:201 | `substr(-3, 3)` has three characters, or the whole name when it is shorter |
| Script.IsPdfMeaning | website/files/script.js:200-202 | a file is a PDF by its MIME type, or by a name of three or more characters ending in "pdf" in any case |
| Script.Split | website/files/script.js:337 | `split` yields at least one piece |
| Script.SplitAppend | website/files/script.js:337 | appending text without a newline extends only the last piece |
| Script.LastLineOfReply | website/files/script.js:337-338 | for a reply whose last line ends with a newline, `lines[lines.length - 2]` is that line |
| Script.DigitPrefix | website/files/script.js:323 | the longest run of leading digits |
| Script.ParseIntJsReadsId | website/files/script.js:323-347 | an id written in decimal, followed by anything that is not a digit, reads back as the id |
| Script.DigitPrefixOf | website/files/script.js:323 | a run of digits followed by a non-digit is exactly the leading digits |
| Script.Page.Load | website/files/script.js:566-574 | on load nothing needs confirming and nothing was sent |
| Script.Page.UploadFile | website/files/script.js:244-278 | with a PDF and a valid key the upload is sent, progress shown, error hidden, button disabled and the flag raised; otherwise nothing changes; it always returns false |
| Script.Page.UploadComplete | website/files/script.js:317-332 | lowers the flag; a reply other than "failed" polls the id it carries, and "failed" shows the upload error |
| Script.Page.ProcessComplete | website/files/script.js:336-360 | the second-to-last line decides: "failed" shows the processing error; anything else resets the form, shows "Done" and fetches the id it reads |
| Script.Page.FileError | website/files/script.js:363-372 | clears the progress, shows the message, re-enables the button and lowers the flag |
| Script.Page.ConfirmExit | website/files/script.js:492-495 | returns the warning exactly while the flag is raised |

## Left out

- Data.Add: `operator+` on coordinates is only declared in data.h:19, with no definition in the source. The model adds component by component.
- Data.LessIsStrictTotalOrder: `operator<` and `operator>` are only declared in data.h:27-29. The model follows the declaration's comment, comparing y first and then x.
- MathUtils.AverageBounds: `average`, `max_value` and `min_value` work on doubles; the model uses exact reals. Under rounding the double average can leave the element bounds (the average of three copies of 0.1 exceeds 0.1), so the bound holds for the exact mean only.
- MathUtils.AverageBetweenMinAndMax: holds for exact reals only, for the same reason as AverageBounds.
- MathUtils.RoundIsLeastMultipleAbove: `round` works on C++ `int`, and `x + r - x % r` overflows near INT_MAX. The model uses unbounded integers, so wrap-around is not modelled; this holds for RoundIdempotent and RoundNegativeOvershoots too.
- Pixels.Load: `w*h*3` is computed in 32-bit `int`, and the source only refuses negative sizes. The overflow for images above about 715 million pixels is not modelled; the model loads every image of non-negative size. The same holds for the `w*h*3` of `save` (`Pixels.Pixels.Save`) and the `w*h` pixel count of the histogram (`Histogram.Histogram.constructor`).
- Image decoding and encoding by the DevIL library, file writing, and the log file are not modelled. `Pixels.Load` takes the decoder's answer as a parameter. `Pixels.Pixels.Save` returns the byte buffer it would hand to the encoder, and does not model the "could not save image" error.
- Threads, mutexes and condition variables are not modelled. Each operation runs as one step.
- Pixels.Pixels.Decode: the gray value is `smartFloor` of a double mean. It is modelled as the exact integer floor of the channel sum divided by 3. Since the epsilon is below 1/3, the two agree for every input.
- Processor.Processor.StatusWaitProgress: the wait for an update is not modelled. The count after the wait and the `exiting` flag are parameters. `smartFloor(100.0*done/pages)` is modelled as exact integer division; the epsilon could only change the result for forms of more than 100000 pages.
- Histogram.Histogram.BalancedThreshold: the share at shade 174, the centroid, the standard deviation and the average of two maxima are only printed or discarded, so they are left out. The double comparison `1.0*pixels/total > 0.1` is modelled as `10 * pixels > total`.
- Histogram.Histogram.constructor: requires every row to be as long as the first. The source reads each row up to the first row's width, and a shorter row would be read out of bounds.
- Processor.Processor.Print: requires every scored page to have no more answers than the key. The source indexes the key's answers at every position of a student's answers without a bound check. The text layout (column widths, percentages with two decimals) is not modelled; the report is a datatype, and the "key already found" log message is counted rather than written.
- ForgetWindow.Forget.Remember: requires a size of at least 1, since the source writes slot `sz - 1`.
- ForgetWindow.Forget.constructor: a negative size, which the source would convert to a huge unsigned size, is not modelled.
- Read.FindID: the ID is added up in `int` with `pow(10, i)` as a double. Overflow past 32 bits for IDs of ten or more digits is not modelled. `answerBlack` and `findFilled`, which threshold averaged bubble colours in floating point, are replaced by an oracle giving the positions found filled on each row.
- Box and Outline read pixel labels through an oracle standing for the connected-component labelling.
- The rest of `Box::valid`, corner finding and `boxColor` are not modelled. Only the diagonal-learning branch of `Box::valid` is.
- Forms.Form.Move: `done` and `finished` are left unset by the source's move constructor, so the model states nothing about them.
- Content.ServerAndClientAgree: names are modelled as sequences of characters, and lengths count characters. The server's `std::string` counts bytes and the browser's `.length` counts UTF-16 code units, so the two lengths differ for names outside ASCII. Both sides refuse every such name on its characters alone, so the verdicts still agree, but the model does not represent the byte or code-unit counts.
- Script.Page.UploadComplete: the flag is lowered as soon as the upload completes, before processing starts, as the code does.
- `parseInt(s, 10)` is modelled as JavaScript parses with radix 10: leading white space and line terminators are skipped, then an optional sign and the longest run of decimal digits are read, so "0x1f" reads as 0 in both.
- Script.ParseIntJsReadsId: `parseInt` returns a double, which is exact only below 2^53. The model reads every id exactly, so ids at or above 2^53, which the browser would round, are not modelled.
- The progress handlers, `fileSelected`, `monitorProcessing`'s polling, the 3-second "Done" timeout, the SHA-256 hashing of passwords and the DOM/HTTP machinery of script.js are not modelled. Requests sent are recorded in a list instead.
- Database access, the web server, PDF extraction, rotation, and the other pieces of the repository outside the grading core are not part of this model.

## Findings

| source | as written | input that shows it | evidently intended | confidence | as-written member | corrected member |
|---|---|---|---|---|---|---|
| box.cpp:433 | `++index` steps clockwise without wrapping from neighbour 7 to 0, so the next test reads `matrix[8]`, one past the end of the table | neighbour 0 carries the label and neighbours 1 to 7 do not | wrap to neighbour 0 as line 421 does in the other direction; the answer is then 7 | not executed | Box.FindEdgeOverrunExample | Box.FindEdge |
