# Board: cutting a grid shape into two congruent halves

This project models the grid-cutting engine of the `cutter` repository, the
class `Board` in `src/main/java/luxoft/ch/cutter/Board.java`.

A board is a row-major buffer of cells with a width and a height. Each cell is
empty (0), first piece (1) or second piece (2). The board does four things:

- It computes the **occupancy profile** along an axis. Entry `k` is the number
  of first-piece cells in cross-sections `0..k`.
- It finds a **bisection index**: when the total is even, a binary search of
  the profile for half of it.
- It runs a **congruence test** on a cut. Every position in the scanned half
  is mirrored across the cut line. The mirror image is then optionally moved
  0, 1 or 2 times by a clockwise turning step around the square anchored at
  the cut. On the square's border ring a step is a quarter turn; off the ring
  it is not a rotation. Each position is compared with its image.
- It **relabels in place**: every first-piece cell at an image becomes the
  second piece.

The Dafny modules follow that structure:

- `Wrappers` holds `Option` and `Outcome`. An `Outcome` is a value, or the
  flat index of an array read that falls outside the buffer.
- `Geometry` holds the axes, cut indices and positions, and the mirror image.
  It also holds the turning step with its half-open edges, the four-step
  period on the border ring of the square (and its failure off the ring), and
  the row-major scan of the first half. In the source, `Position` is an inner class that reads the
  board's width and height implicitly. Here they are parameters.
- `Grid` holds what the board computes, as functions of the cell sequence:
  the profile, the congruence test and the relabelling. It also proves their
  properties.
- `Search` holds a binary search with the contract documented for
  `java.util.Arrays.binarySearch(int[], int)`.
- `Cutter` holds the `Board` class: an `array<int>` with its width and height,
  and methods with the source's loops. Each method is proved against the
  functions of `Grid`.
- `Scenarios` composes the board's operations on the boards of the
  repository's tests `CutShapeTest` and compares the results with the
  buffers those tests expect. It also works through three more boards.

The source makes several array reads with no bounds check:

- `getValue`;
- `isCellOccupied`;
- `grades[grades.length - 1]` when the profile is empty.

The model adds no preconditions for these reads, except where every call
site guarantees the range (`Cutter.Board.IsLineCellOccupied` and
`Cutter.Board.SetValue`, listed under "Left out"). Every read goes through
the flat index `row * width + column`, exactly as in the source. So a column
past the end of a row reads a cell of the next row. A flat index outside the
buffer makes the operation return `OutOfBounds(index)`, standing for the
`ArrayIndexOutOfBoundsException`. Relabelling keeps the writes it made before
such a fault, as the Java loop does.

Points where the code's behaviour differs from what its structure
suggests; the model follows the code:

- The bisection is not necessarily the *smallest* `k` with
  `profile[k] == total / 2`. The code returns whatever index
  `Arrays.binarySearch` returns. That is *some* matching index, or
  `-(insertion point) - 1` when half the total is not in the profile. The
  code wraps even that negative value in `Optional.of`.
  `Cutter.Board.GetSplitIndex` states exactly this, and
  `Scenarios.PairWithoutRowHalf` shows an even total that gives `-1`.
- Array accesses are not bounds-checked beforehand, so a scan can fault.
  The code reads cells unchecked, and the model returns the faulting index.
- The board does not own its buffer exclusively. The constructor keeps the
  caller's array without copying it, and so does the model.
- A row cut at `v` scans rows `0..v`, including row `v`, because `hasNext`
  compares with `<=`. Its mirror image, row `v - 1`, is then relabelled too.
  A column cut's scan stops before column `v`, because `nextPosition` wraps
  there. `Geometry.ScanCovers` states both regions, and
  `Scenarios.StackedPairRowCut` shows a row cut marking both cells of a
  two-cell column.
- The turning step is a quarter turn only on the border ring of the square.
  For a position inside the square, such as a mirror image in the middle of
  a square of side 3, the last branch of the step sends it to the top edge,
  and later steps move it round the ring. Four passes then do not bring it
  back. `Geometry.CentreNotPeriodFour` shows the centre (1, 1) going to
  (0, 1) after one pass and to (1, 0) after four.
- A turned image can leave the board even when the cut is in range. Only
  the mirror image is checked for validity. The turned position is returned
  unchecked and then read, so the read can fault.
  `Scenarios.TurnedImageLeavesBoard` shows this on a board 4 wide and 5
  tall with a cut at column 2 and one turn: the scanned position (4, 0)
  mirrors onto (4, 3), which lies outside the 2 by 2 square at the cut. The
  step sends it to (0, -1), and the read faults at flat index -1.
- A negative bisection index is still used. `next()` turns it into a cut at
  or before cross-section 0, where no scanned position has a mirror image on
  the board. The congruence test then passes without comparing anything, and
  relabelling changes nothing (`Grid.NegativeSplitIsVacuous`). The connected
  board of four rows of five in `testConnectedOnly` is such a case: its
  column profile `[3, 6, 10, 14, 16]` does not contain 8, the split index is
  -3, and `Board` leaves the cells as they were.
  `Scenarios.ConnectedShapeUnchanged` shows this, and that the result is not
  the test's expected buffer.

## Model

| member | source | states |
|---|---|---|
| `Geometry.OppositeType` | src/main/java/luxoft/ch/cutter/Board.java:11-13 | the opposite axis differs from the given one (so it is the other of the two) |
| `Geometry.Reflected` | src/main/java/luxoft/ch/cutter/Board.java:51-56 | the mirror image lies on the other side of the cut line exactly when the position does not |
| `Geometry.ReflectedDistance` | src/main/java/luxoft/ch/cutter/Board.java:51-56 | a position d cross-sections before the line lands d cross-sections after it; the other coordinate is kept |
| `Geometry.ReflectedTwice` | src/main/java/luxoft/ch/cutter/Board.java:51-56 | reflecting twice across the same cut gives the position back |
| `Geometry.Next` | src/main/java/luxoft/ch/cutter/Board.java:17-19 | the next index keeps the axis and is one cross-section further |
| `Geometry.IsValid` | src/main/java/luxoft/ch/cutter/Board.java:32-34 | a position is on the board exactly when both coordinates are non-negative and below their axis's limit |
| `Geometry.IsLessEqual` | src/main/java/luxoft/ch/cutter/Board.java:36-41 | a position is at or before an index exactly when its coordinate along the index's axis is at most the index value |
| `Geometry.IsLessThanLimit` | src/main/java/luxoft/ch/cutter/Board.java:43-49 | the row is compared with the height for rows, the column with the width for columns |
| `Geometry.NextPosition` | src/main/java/luxoft/ch/cutter/Board.java:58-64 | the next position comes after the current one in row-major order; it is the next column of the same row exactly when that column is below the wrap column, otherwise column 0 of the next row |
| `Geometry.LastColumn` | src/main/java/luxoft/ch/cutter/Board.java:66-68 | the scan wraps at the cut column for a column cut and at the width for a row cut |
| `Geometry.TurnPasses` | src/main/java/luxoft/ch/cutter/Board.java:71-87 | the do-while makes at least one pass, and exactly `times` passes when `times >= 1` |
| `Geometry.CentreNotPeriodFour` | src/main/java/luxoft/ch/cutter/Board.java:70-89 | off the ring the step is no rotation: the centre of a square of side 3 goes to the top edge after one pass and to the left edge, not back to the centre, after four |
| `Geometry.Side` | src/main/java/luxoft/ch/cutter/Board.java:122-124 | the square's side fits in the rows and in the columns left from its corner, and equals one of the two |
| `Geometry.LeftTopAfterCut` | src/main/java/luxoft/ch/cutter/Board.java:126-131 | the square's corner lies on the first cross-section after the cut line and on cross-section 0 of the other axis |
| `Geometry.Limit` | src/main/java/luxoft/ch/cutter/Board.java:188-190 | the limit of the row axis is the height, of the column axis the width |
| `Geometry.ScanFromWalk` | src/main/java/luxoft/ch/cutter/Board.java:234-235 | the walk starts at its first position, every walked position passes the continuation test, and each position is the successor of the previous one |
| `Geometry.HasNext` | src/main/java/luxoft/ch/cutter/Board.java:258-263 | a row cut's scan continues while the column is below the width and the row is at most the cut; a column cut's while the row is below the height and the column is at most the cut |
| `Geometry.Start` | src/main/java/luxoft/ch/cutter/Board.java:265-267 | no position with non-negative coordinates comes before the start in row-major order |
| `Geometry.Scan` | src/main/java/luxoft/ch/cutter/Board.java:234-235 | a non-empty scan begins at the start position, and a negative cut index gives an empty scan |
| `Geometry.TurnedReflected` | src/main/java/luxoft/ch/cutter/Board.java:106-120 | the turned image is absent exactly when the mirror image is off the board; it is the plain mirror image when no turn is asked for or the square is one cell |
| `Geometry.TurnStepOnRing` | src/main/java/luxoft/ch/cutter/Board.java:78-104 | on the border ring of a square of side at least 2 the half-open edges partition the ring; one step moves top to right, right to bottom, bottom to left, left to top, stays on the ring and equals the geometric quarter turn |
| `Geometry.TurnStepOffRing` | src/main/java/luxoft/ch/cutter/Board.java:84-86 | a position off the ring takes the last branch of the step |
| `Geometry.TurnedIsRotation` | src/main/java/luxoft/ch/cutter/Board.java:70-89 | any number of steps from a ring position stays on the ring and equals that many geometric quarter turns |
| `Geometry.RotatedFourTimes` | src/main/java/luxoft/ch/cutter/Board.java:78-86 | four geometric quarter turns are the identity |
| `Geometry.TurnedPeriodFour` | src/main/java/luxoft/ch/cutter/Board.java:70-89 | four steps return any ring position to itself, and n + 4 steps equal n steps |
| `Geometry.TurnedReflectedOnRing` | src/main/java/luxoft/ch/cutter/Board.java:106-120 | when the mirror image is on the ring of a square of side at least 2, one or two turns give its geometric rotation by one or two quarter turns |
| `Geometry.ScanFromCovers` | src/main/java/luxoft/ch/cutter/Board.java:58-68 | from any point the walk reaches, the rest of the scan is exactly the region positions not before that point |
| `Geometry.ScanCovers` | src/main/java/luxoft/ch/cutter/Board.java:258-267 | the scan visits exactly its region. A column cut `v >= 0` covers every row and the columns below `max(v, 1)`, so a cut at 0 still visits column 0; a row cut `v` covers every column of rows `0..v`; a negative cut covers nothing |
| `Geometry.ScanFromOrdered` | src/main/java/luxoft/ch/cutter/Board.java:58-68 | the walk from a point never goes before it and is strictly increasing in row-major order |
| `Geometry.ScanOrdered` | src/main/java/luxoft/ch/cutter/Board.java:258-267 | the scan is strictly increasing in row-major order, so no position is visited twice |
| `Grid.FlatOfValid` | src/main/java/luxoft/ch/cutter/Board.java:161-163 | the flat index of a position on the board lies in `[0, width * height)` |
| `Grid.FlatInverse` | src/main/java/luxoft/ch/cutter/Board.java:161-163 | for a column below the width, the flat index gives back the row (quotient) and the column (remainder) |
| `Grid.ReadOfValid` | src/main/java/luxoft/ch/cutter/Board.java:184-186 | reading a position on the board never faults and tells whether the cell holds the first piece |
| `Grid.ReadOutsideBuffer` | src/main/java/luxoft/ch/cutter/Board.java:165-167 | a read faults exactly when the flat index is outside the buffer, and the fault carries that index |
| `Grid.LineCellRead` | src/main/java/luxoft/ch/cutter/Board.java:169-174 | cell j of cross-section k is the position (k, j) of a row or (j, k) of a column: same flat index, and where the read does not fault it holds the first piece exactly when the read says so |
| `Grid.LineCount` | src/main/java/luxoft/ch/cutter/Board.java:213-222 | a cross-section of n cells has at most n first-piece cells |
| `Grid.Grades` | src/main/java/luxoft/ch/cutter/Board.java:203-211 | one entry per cross-section; the first entry is the count of cross-section 0, and each later entry is the previous one plus the count of its cross-section |
| `Grid.RowSectionsCount` | src/main/java/luxoft/ch/cutter/Board.java:203-222 | counting the first m rows one by one counts the first-piece cells of the buffer's first m rows |
| `Grid.ColumnSectionsCount` | src/main/java/luxoft/ch/cutter/Board.java:203-222 | counting all columns down to row n gives the same total as counting rows `0..n-1` |
| `Grid.GradesProfile` | src/main/java/luxoft/ch/cutter/Board.java:188-222 | the profile has one entry per cross-section. It starts at or above 0 and never decreases. Each step is at most one full cross-section. The last entry is the number of first-piece cells on the whole board |
| `Grid.GradesSteps` | src/main/java/luxoft/ch/cutter/Board.java:203-211 | the first entry is within one cross-section, and each entry exceeds the previous by between 0 and one cross-section |
| `Grid.GradesSorted` | src/main/java/luxoft/ch/cutter/Board.java:203-211 | the profile is non-decreasing |
| `Grid.GradesTotal` | src/main/java/luxoft/ch/cutter/Board.java:203-222 | the last entry of the row profile and of the column profile is the number of first-piece cells |
| `Grid.SectionsMonotone` | src/main/java/luxoft/ch/cutter/Board.java:206-209 | the running total never decreases as more cross-sections are added |
| `Grid.CongruentFrom` | src/main/java/luxoft/ch/cutter/Board.java:233-246 | an empty walk passes; a fault carries the flat index of some walked position or of its present image |
| `Grid.Congruent` | src/main/java/luxoft/ch/cutter/Board.java:233-246 | a cut with a negative index passes without comparing anything |
| `Grid.CongruentFromMeaning` | src/main/java/luxoft/ch/cutter/Board.java:233-246 | the test passes exactly when every walked position reads without fault and agrees with its image wherever the image is present |
| `Grid.CongruentFromInBounds` | src/main/java/luxoft/ch/cutter/Board.java:233-246 | when every read is inside the buffer, the test gives a verdict, not a fault |
| `Grid.MirrorTestInBounds` | src/main/java/luxoft/ch/cutter/Board.java:233-246 | with no turn, a row cut at most `height - 1` or a column cut at most `width` never faults |
| `Grid.RelabelFrom` | src/main/java/luxoft/ch/cutter/Board.java:248-256 | relabelling keeps the length of the buffer |
| `Grid.Relabel` | src/main/java/luxoft/ch/cutter/Board.java:248-256 | relabelling keeps the length of the buffer, and a cut with a negative index leaves the buffer unchanged without fault |
| `Grid.RelabelOnlyPromotes` | src/main/java/luxoft/ch/cutter/Board.java:248-256 | whether or not it faults, every cell either keeps its value or is a first-piece cell at an image that becomes the second piece |
| `Grid.RelabelExact` | src/main/java/luxoft/ch/cutter/Board.java:248-256 | a relabelling that runs to the end sets exactly the first-piece cells at images to the second piece and keeps every other cell |
| `Grid.RelabelFromInBounds` | src/main/java/luxoft/ch/cutter/Board.java:251-253 | when every present image lies inside the buffer, relabelling does not fault |
| `Grid.RelabelMirrorInBounds` | src/main/java/luxoft/ch/cutter/Board.java:248-256 | relabelling with no turn never faults, whatever the cut |
| `Grid.RelabelFaultIsGeometric` | src/main/java/luxoft/ch/cutter/Board.java:248-256 | whether and where relabelling faults depends on the geometry only, not on the cell values |
| `Grid.RelabelFromIdempotent` | src/main/java/luxoft/ch/cutter/Board.java:249-255 | walking the same positions again over the result returns the same buffer and the same fault, whether or not the first walk faulted |
| `Grid.RelabelIdempotent` | src/main/java/luxoft/ch/cutter/Board.java:248-256 | a second relabelling with the same cut and turns changes nothing and reports the same fault, including after a fault |
| `Grid.PromotionKeepsNonEmpty` | src/main/java/luxoft/ch/cutter/Board.java:252-253 | turning first-piece cells into second-piece cells keeps the number of non-empty cells |
| `Grid.RelabelConserves` | src/main/java/luxoft/ch/cutter/Board.java:248-256 | relabelling keeps empty cells empty, creates no first-piece cell and keeps the number of non-empty cells |
| `Grid.NegativeSplitIsVacuous` | src/main/java/luxoft/ch/cutter/Board.java:192-201 | for a negative split index, the cut after it passes the congruence test with any number of turns and relabelling leaves the buffer unchanged |
| `Search.BinarySearch` | src/main/java/luxoft/ch/cutter/Board.java:197 | on a non-decreasing array, returns some index holding the key, or `-(insertion point) - 1` when the key is absent |
| `Search.SearchResultFound` | src/main/java/luxoft/ch/cutter/Board.java:197 | a search result is non-negative exactly when the key occurs |
| `Search.SearchResultUnique` | src/main/java/luxoft/ch/cutter/Board.java:197 | when the key occurs once, every search result is its index |
| `Cutter.CheckDimensions` | src/main/java/luxoft/ch/cutter/Board.java:144-155 | a width of 0 or below is rejected first; otherwise the length must be a multiple of the width, and the height is the number of whole rows with `height * width == length` |
| `Cutter.Board.constructor` | src/main/java/luxoft/ch/cutter/Board.java:144-155 | the board shares the caller's array, keeps the width and takes the checked height; the board invariant holds |
| `Cutter.Board.IsCellOccupied` | src/main/java/luxoft/ch/cutter/Board.java:184-186 | reads the cell at the flat index of the position, or faults with that index |
| `Cutter.Board.IsLineCellOccupied` | src/main/java/luxoft/ch/cutter/Board.java:169-182 | tells whether cell k of cross-section i holds the first piece |
| `Cutter.Board.SetValue` | src/main/java/luxoft/ch/cutter/Board.java:176-178 | writes the value at the flat index of the position and nothing else |
| `Cutter.Board.CalculateTotal` | src/main/java/luxoft/ch/cutter/Board.java:213-222 | returns the number of first-piece cells of cross-section i |
| `Cutter.Board.GetGrades` | src/main/java/luxoft/ch/cutter/Board.java:203-211 | returns a new array holding the occupancy profile |
| `Cutter.Board.GetSplitIndex` | src/main/java/luxoft/ch/cutter/Board.java:192-201 | faults at index -1 exactly when the profile is empty; otherwise absent exactly when the total is odd, and when present it has the requested axis and is a binary-search result for half the total, negative when half is absent |
| `Cutter.Board.TurnClockwise` | src/main/java/luxoft/ch/cutter/Board.java:70-89 | the do-while gives `max(times, 1)` turning steps |
| `Cutter.Board.GetTurnedReflectedPosition` | src/main/java/luxoft/ch/cutter/Board.java:106-120 | returns the turned mirror image, absent when the mirror image is off the board |
| `Cutter.Board.IsTurnedReflectionSame` | src/main/java/luxoft/ch/cutter/Board.java:233-246 | the loop's early returns give the congruence test's verdict or its fault |
| `Cutter.Board.GetTurnCountForSameReflection` | src/main/java/luxoft/ch/cutter/Board.java:224-231 | returns the smallest turn count in `{0, 1, 2}` whose test passes, after all smaller ones failed; absent when all three fail; a fault when the first test that does not fail faults |
| `Cutter.Board.SplitInTwoParts` | src/main/java/luxoft/ch/cutter/Board.java:248-256 | the buffer afterwards is the relabelled buffer, and the reported fault is the relabelling's fault |
| `Scenarios.ThreeInARow` | src/test/java/luxoft/ch/cutter/CutShapeTest.java:9-14 | a row of three first-piece cells has column profile `[1, 2, 3]`, whose total is odd |
| `Scenarios.FourInARowSplit` | src/test/java/luxoft/ch/cutter/CutShapeTest.java:16-23 | a row of four has profile `[1, 2, 3, 4]`; the search for 2 returns 1, and the next index is the cut at column 2 |
| `Scenarios.FourInARowMirror` | src/test/java/luxoft/ch/cutter/CutShapeTest.java:16-23 | at that cut the plain mirror passes, and relabelling gives `[1, 1, 2, 2]` |
| `Scenarios.TwoRowsOfFourSplit` | src/test/java/luxoft/ch/cutter/CutShapeTest.java:25-34 | two rows of four have profile `[1, 3, 4, 6]`; the search for 3 returns 1, and the next index is the cut at column 2 |
| `Scenarios.TwoRowsOfFourTurns` | src/test/java/luxoft/ch/cutter/CutShapeTest.java:25-34 | at that cut, 0 and 1 turns fail and 2 turns pass |
| `Scenarios.TwoRowsOfFourRelabel` | src/test/java/luxoft/ch/cutter/CutShapeTest.java:25-34 | relabelling with 2 turns gives `[0, 1, 2, 2, 1, 1, 0, 2]` |
| `Scenarios.ThreeRowsOfFourCut` | src/test/java/luxoft/ch/cutter/CutShapeTest.java:36-47 | three rows of four have column profile `[2, 4, 6, 8]`; the search for 4 returns 1, the cut at column 2 passes the plain mirror, and relabelling gives `[0, 1, 2, 0, 1, 1, 2, 2, 1, 0, 0, 2]` |
| `Scenarios.ConnectedShapeUnchanged` | src/test/java/luxoft/ch/cutter/CutShapeTest.java:81-94 | the connected shape has column profile `[3, 6, 10, 14, 16]`; the search for 8 returns -3, the cut at column -2 passes with any turns, relabelling leaves the cells unchanged, and they differ from the test's expected buffer |
| `Scenarios.TurnedImageLeavesBoard` | src/main/java/luxoft/ch/cutter/Board.java:106-120 | on a board 4 wide and 5 tall, cut at column 2 with one turn, the scanned position (4, 0) has a valid mirror image, but its turned image is (0, -1), and reading it faults at -1 |
| `Scenarios.CongruentFromImages` | src/main/java/luxoft/ch/cutter/Board.java:233-246 | the test passes when every walked position has an image that reads the same |
| `Scenarios.StackedPairRowCut` | src/main/java/luxoft/ch/cutter/Board.java:36-41 | for a two-cell column, the row profile `[1, 2]` bisects after row 0, and relabelling across the cut at row 1 also marks the cell before the cut line: `[2, 2]` |
| `Scenarios.PairWithoutRowHalf` | src/main/java/luxoft/ch/cutter/Board.java:192-201 | for two cells side by side, the row profile `[2]` has an even total but no entry 1, and the search result is -1 |

## Left out

- `CutShape` and `CutShapeImpl` are not part of this model. `CutShapeImpl` is
  an unfinished draft. It does not compile against `CutShape`'s private
  fields, its `getIndex` is not row-major, and its `cut()` never changes the
  cells. `CutShape` only holds fields. The `singleCut` flag is never
  interpreted anywhere, so it has no semantics to model.
- `testDisconnectedOnly` and `testDisconnectedOnly2` expect results that
  depend on that flag, and `Board` does not produce them. They are not
  encoded.
- The scenarios compose `Board`'s operations in the order column split
  index, `next()`, first passing turn, relabelling, and compare the result
  with the buffers the tests expect. The tests themselves call
  `CutShapeImpl.cut()`, which only checks that the column profile holds half
  the total. The scenarios are lemmas, not a method of `Board`, because
  `Board` has no such composed operation.
- Java's 32-bit `int` arithmetic is not modelled. This covers
  `row * width + col`, the profile sums, `-(low + 1)` in the search and the
  reflection arithmetic. Integers are unbounded, which matches the source
  whenever no intermediate value overflows.
- Exception types and messages are not modelled:
  - construction failure is the `Dimensions` result of `CheckDimensions`,
    plus the constructor's precondition that it is a height;
  - an unchecked out-of-range array read is `OutOfBounds(flat index)`.
- `getValues` is the public `values` field of `Board`.
- `java.util.Optional` is the `Option` datatype. `Arrays.binarySearch` is a
  hand-written search with the library's documented contract. Its shift
  `(low + high) >>> 1` is written `/ 2`, which is the same for the
  non-negative bounds it is applied to.
- `Cutter.Board.TurnClockwise` is proved equal to the step function applied
  `max(times, 1)` times, and the step is proved to be the geometric quarter
  turn on the square's border ring. Off the ring, the step takes the source's
  last branch (`Geometry.TurnStepOffRing`). It is not a rotation there, as
  `Geometry.CentreNotPeriodFour` shows; the model does not characterise the
  off-ring orbit beyond that.
- `Cutter.Board.IsLineCellOccupied` requires the cross-section and the cell
  to be on the board. That is how its only caller, `calculateTotal`, uses it.
  Out-of-range calls are covered by `Cutter.Board.IsCellOccupied` instead.
- `Cutter.Board.SetValue` requires the flat index to be inside the buffer.
  The relabelling checks each image's flat index first and reports
  `OutOfBounds` instead of writing, which is where the Java write would throw.
