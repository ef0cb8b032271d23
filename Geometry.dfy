/**
 * Positions on the board and the geometry of a cut: axes and cut indices,
 * the mirror image across a cut line, the quarter-turn step around the
 * square anchored at the cut, and the row-major scan of the first half.
 *
 * In the source, Position is an inner class that reads the board's width
 * and height implicitly; here every function that needs them takes them as
 * parameters.
 */
module Geometry {
  import opened Wrappers

  datatype IndexType = Row | Column

  /** A cross-section number along an axis (a row number or a column number). */
  datatype Index = Index(value: int, axis: IndexType)

  datatype Position = Position(row: int, column: int)

  function OppositeType(t: IndexType): (r: IndexType)
    ensures r != t
  {
    if t == Row then Column else Row
  }

  /** The next cross-section along the same axis. */
  function Next(i: Index): (r: Index)
    ensures r.axis == i.axis && r.value == i.value + 1
  {
    Index(i.value + 1, i.axis)
  }

  /** How many cross-sections an axis has: the height for rows, the width for columns. */
  function Limit(t: IndexType, width: int, height: int): (r: int)
    ensures t == Row ==> r == height
    ensures t == Column ==> r == width
  {
    if t == Row then height else width
  }

  /** A position on the board: non-negative, and below the limit along both axes. */
  predicate IsValid(p: Position, width: int, height: int)
    ensures IsValid(p, width, height)
        <==> 0 <= p.row && 0 <= p.column && IsLessThanLimit(p, Row, width, height) && IsLessThanLimit(p, Column, width, height)
  {
    0 <= p.row < height && 0 <= p.column < width
  }

  /** Whether p lies at or before cross-section i: its coordinate along i's axis is at most i.value. */
  predicate IsLessEqual(p: Position, i: Index)
    ensures IsLessEqual(p, i) <==> (if i.axis == Row then p.row else p.column) <= i.value
  {
    match i.axis
    case Row => p.row <= i.value
    case Column => p.column <= i.value
  }

  /** Whether p's coordinate along axis t is below that axis's limit: the row below the height, the column below the width. */
  predicate IsLessThanLimit(p: Position, t: IndexType, width: int, height: int)
    ensures IsLessThanLimit(p, t, width, height) <==> if t == Row then p.row < height else p.column < width
  {
    match t
    case Row => p.row < Limit(Row, width, height)
    case Column => p.column < Limit(Column, width, height)
  }

  /**
   * The mirror image of p across the cut line that runs just before
   * cross-section i.value: cross-sections i.value - 1 - d and i.value + d
   * swap places, and the other coordinate is kept.
   */
  function Reflected(p: Position, i: Index): (r: Position)
    ensures IsLessEqual(p, Index(i.value - 1, i.axis)) <==> !IsLessEqual(r, Index(i.value - 1, i.axis))
  {
    match i.axis
    case Row => Position(i.value + (i.value - 1 - p.row), p.column)
    case Column => Position(p.row, i.value + (i.value - 1 - p.column))
  }

  /** A position d cross-sections before the cut line lands d cross-sections after it, and the other coordinate is kept. */
  lemma ReflectedDistance(p: Position, i: Index)
    ensures var r := Reflected(p, i);
      && (i.axis == Row ==> r.column == p.column && r.row - i.value == i.value - 1 - p.row)
      && (i.axis == Column ==> r.row == p.row && r.column - i.value == i.value - 1 - p.column)
  {
  }

  lemma ReflectedTwice(p: Position, i: Index)
    ensures Reflected(Reflected(p, i), i) == p
  {
  }

  /** The column at which the scan wraps to the next row: the cut column for a column cut, the width for a row cut. */
  function LastColumn(i: Index, width: int): (r: int)
    ensures i.axis == Column ==> r == i.value
    ensures i.axis == Row ==> r == width
  {
    if i.axis == Column then i.value else width
  }

  /**
   * The next position of the scan: one column to the right, or the start
   * of the next row once the wrap column is reached. Either way it comes
   * after p in row-major order.
   */
  function NextPosition(p: Position, i: Index, width: int): (r: Position)
    ensures Before(p, r)
    ensures r.row == p.row ==> r.column == p.column + 1 < LastColumn(i, width)
    ensures r.row != p.row ==> r == Position(p.row + 1, 0) && p.column + 1 >= LastColumn(i, width)
  {
    if p.column + 1 >= LastColumn(i, width) then Position(p.row + 1, 0)
    else Position(p.row, p.column + 1)
  }

  /** Whether the scan of the first half of cut i continues at p. */
  predicate HasNext(p: Position, i: Index, width: int, height: int)
    ensures i.axis == Row ==> (HasNext(p, i, width, height) <==> p.column < width && p.row <= i.value)
    ensures i.axis == Column ==> (HasNext(p, i, width, height) <==> p.row < height && p.column <= i.value)
  {
    IsLessThanLimit(p, OppositeType(i.axis), width, height) && IsLessEqual(p, i)
  }

  /** The first position of the scan: no position with non-negative coordinates comes before it. */
  function Start(): (r: Position)
    ensures forall q: Position | 0 <= q.row && 0 <= q.column :: !Before(q, r)
  {
    Position(0, 0)
  }

  // ---------------------------------------------------------------------
  // The quarter-turn step around a square with corner leftTop.

  /** The top edge without its right corner. */
  predicate IsTopEdge(p: Position, leftTop: Position, side: int)
  {
    p.row == leftTop.row && p.column >= leftTop.column && p.column < leftTop.column + side - 1
  }

  /** The right edge without its bottom corner. */
  predicate IsRightEdge(p: Position, leftTop: Position, side: int)
  {
    p.column == leftTop.column + side - 1 && p.row >= leftTop.row && p.row < leftTop.row + side - 1
  }

  /** The bottom edge without its left corner. */
  predicate IsBottomEdge(p: Position, leftTop: Position, side: int)
  {
    p.row == leftTop.row + side - 1 && p.column > leftTop.column && p.column < leftTop.column + side
  }

  /** One pass of the turning loop: edge positions move one edge clockwise; all others take the last branch. */
  function TurnStep(p: Position, leftTop: Position, side: int): (r: Position)
  {
    if IsTopEdge(p, leftTop, side) then
      Position(leftTop.row + (p.column - leftTop.column), leftTop.column + side - 1)
    else if IsRightEdge(p, leftTop, side) then
      Position(leftTop.row + side - 1, leftTop.column + side - 1 - (p.row - leftTop.row))
    else if IsBottomEdge(p, leftTop, side) then
      Position(leftTop.row + side - 1 - (leftTop.column + side - 1 - p.column), leftTop.column)
    else
      Position(leftTop.row, leftTop.column + (leftTop.row + side - 1 - p.row))
  }

  /** n passes of the turning loop. */
  function Turned(p: Position, leftTop: Position, side: int, n: nat): (r: Position)
  {
    if n == 0 then p else TurnStep(Turned(p, leftTop, side, n - 1), leftTop, side)
  }

  /** The turning loop is a do-while: it makes at least one pass whatever times is. */
  function TurnPasses(times: int): (r: nat)
    ensures r >= 1
    ensures times >= 1 ==> r == times
  {
    if times <= 1 then 1 else times
  }

  /** The corner of the square used as the frame of a turn: on the first cross-section after the cut line, in row or column 0. */
  function LeftTop(i: Index): (r: Position)
  {
    match i.axis
    case Column => Position(0, i.value)
    case Row => Position(i.value, 0)
  }

  /** The side of the square anchored at leftTop: the smaller of the rows and the columns left from it. */
  function Side(leftTop: Position, width: int, height: int): (side: int)
    ensures side <= Limit(Row, width, height) - leftTop.row
    ensures side <= Limit(Column, width, height) - leftTop.column
    ensures side == Limit(Row, width, height) - leftTop.row || side == Limit(Column, width, height) - leftTop.column
  {
    if Limit(Row, width, height) - leftTop.row <= Limit(Column, width, height) - leftTop.column
    then Limit(Row, width, height) - leftTop.row
    else Limit(Column, width, height) - leftTop.column
  }

  /** The corner lies on cross-section i.value, just after the cut line, and on the first cross-section of the other axis. */
  lemma LeftTopAfterCut(i: Index)
    ensures IsLessEqual(LeftTop(i), i) && !IsLessEqual(LeftTop(i), Index(i.value - 1, i.axis))
    ensures IsLessEqual(LeftTop(i), Index(0, OppositeType(i.axis))) && !IsLessEqual(LeftTop(i), Index(-1, OppositeType(i.axis)))
  {
  }

  /**
   * The image of p under reflection across cut i followed by `times`
   * quarter turns: absent when the mirror image is off the board; the plain
   * mirror image when no turn is asked for or the square is a single cell.
   */
  function TurnedReflected(p: Position, i: Index, times: int, width: int, height: int): (r: Option<Position>)
    ensures r.None? <==> !IsValid(Reflected(p, i), width, height)
    ensures r.Some? && (times == 0 || Side(LeftTop(i), width, height) == 1) ==> r.value == Reflected(p, i)
  {
    if !IsValid(Reflected(p, i), width, height) then None
    else if times == 0 then Some(Reflected(p, i))
    else if Side(LeftTop(i), width, height) == 1 then Some(Reflected(p, i))
    else Some(Turned(Reflected(p, i), LeftTop(i), Side(LeftTop(i), width, height), TurnPasses(times)))
  }

  // ---------------------------------------------------------------------
  // Properties of the turn.

  /** The border ring of the square with corner leftTop and the given side. */
  predicate OnRing(p: Position, leftTop: Position, side: int)
  {
    && leftTop.row <= p.row <= leftTop.row + side - 1
    && leftTop.column <= p.column <= leftTop.column + side - 1
    && (p.row == leftTop.row || p.row == leftTop.row + side - 1 || p.column == leftTop.column || p.column == leftTop.column + side - 1)
  }

  /** The left edge without its top corner: the ring positions that the last branch of the step handles. */
  predicate IsLeftEdge(p: Position, leftTop: Position, side: int)
  {
    p.column == leftTop.column && p.row > leftTop.row && p.row <= leftTop.row + side - 1
  }

  /** The geometric clockwise quarter turn of the square with corner leftTop. */
  function Rotated(p: Position, leftTop: Position, side: int): (r: Position)
  {
    Position(leftTop.row + (p.column - leftTop.column), leftTop.column + side - 1 - (p.row - leftTop.row))
  }

  function RotatedTimes(p: Position, leftTop: Position, side: int, n: nat): (r: Position)
  {
    if n == 0 then p else Rotated(RotatedTimes(p, leftTop, side, n - 1), leftTop, side)
  }

  /**
   * On the ring of a square of side at least 2 the four half-open edges
   * partition the ring, each step moves a position to the next edge
   * clockwise, and the step agrees with the geometric quarter turn.
   */
  lemma TurnStepOnRing(p: Position, leftTop: Position, side: int)
    requires side >= 2 && OnRing(p, leftTop, side)
    ensures var n := (if IsTopEdge(p, leftTop, side) then 1 else 0) + (if IsRightEdge(p, leftTop, side) then 1 else 0)
                   + (if IsBottomEdge(p, leftTop, side) then 1 else 0) + (if IsLeftEdge(p, leftTop, side) then 1 else 0);
            n == 1
    ensures var q := TurnStep(p, leftTop, side);
      && q == Rotated(p, leftTop, side)
      && OnRing(q, leftTop, side)
      && (IsTopEdge(p, leftTop, side) ==> IsRightEdge(q, leftTop, side))
      && (IsRightEdge(p, leftTop, side) ==> IsBottomEdge(q, leftTop, side))
      && (IsBottomEdge(p, leftTop, side) ==> IsLeftEdge(q, leftTop, side))
      && (IsLeftEdge(p, leftTop, side) ==> IsTopEdge(q, leftTop, side))
  {
  }

  /** Off the ring, the step takes the last branch and lands on the top row of the square. */
  lemma TurnStepOffRing(p: Position, leftTop: Position, side: int)
    requires side >= 2 && !OnRing(p, leftTop, side)
    ensures TurnStep(p, leftTop, side) == Position(leftTop.row, leftTop.column + (leftTop.row + side - 1 - p.row))
  {
  }

  /** Repeated steps from a ring position stay on the ring and follow the geometric rotation. */
  lemma {:induction false} TurnedIsRotation(p: Position, leftTop: Position, side: int, n: nat)
    requires side >= 2 && OnRing(p, leftTop, side)
    ensures Turned(p, leftTop, side, n) == RotatedTimes(p, leftTop, side, n)
    ensures OnRing(Turned(p, leftTop, side, n), leftTop, side)
  {
    if n > 0 {
      TurnedIsRotation(p, leftTop, side, n - 1);
      TurnStepOnRing(Turned(p, leftTop, side, n - 1), leftTop, side);
    }
  }

  /** Four geometric quarter turns are the identity, for any position. */
  lemma RotatedFourTimes(p: Position, leftTop: Position, side: int)
    ensures RotatedTimes(p, leftTop, side, 4) == p
  {
    var p1 := Rotated(p, leftTop, side);
    var p2 := Rotated(p1, leftTop, side);
    var p3 := Rotated(p2, leftTop, side);
    assert RotatedTimes(p, leftTop, side, 3) == p3 by {
      assert RotatedTimes(p, leftTop, side, 1) == p1;
    }
  }

  /** Four passes of the turning loop bring a ring position back, and so does any further multiple of four. */
  lemma {:induction false} TurnedPeriodFour(p: Position, leftTop: Position, side: int, n: nat)
    requires side >= 2 && OnRing(p, leftTop, side)
    ensures Turned(p, leftTop, side, 4) == p
    ensures Turned(p, leftTop, side, n + 4) == Turned(p, leftTop, side, n)
  {
    TurnedIsRotation(p, leftTop, side, 4);
    RotatedFourTimes(p, leftTop, side);
    if n > 0 {
      TurnedPeriodFour(p, leftTop, side, n - 1);
    }
  }

  /**
   * Off the ring the step is no rotation: the centre of a square of side 3
   * goes to the top edge on the first pass, travels round the ring, and four
   * passes leave it on the left edge instead of back at the centre.
   */
  lemma CentreNotPeriodFour(p: Position, leftTop: Position, side: int)
    requires p.row == 1 && p.column == 1 && leftTop.row == 0 && leftTop.column == 0 && side == 3
    ensures !OnRing(p, leftTop, side)
    ensures Turned(p, leftTop, side, 1).row == 0 && Turned(p, leftTop, side, 1).column == 1
    ensures Turned(p, leftTop, side, 4).row == 1 && Turned(p, leftTop, side, 4).column == 0
  {
    var p1 := TurnStep(p, leftTop, side);
    assert p1.row == 0 && p1.column == 1;
    var p2 := TurnStep(p1, leftTop, side);
    assert p2.row == 1 && p2.column == 2;
    var p3 := TurnStep(p2, leftTop, side);
    assert p3.row == 2 && p3.column == 1;
    assert Turned(p, leftTop, side, 1) == p1;
    assert Turned(p, leftTop, side, 2) == p2;
    assert Turned(p, leftTop, side, 3) == p3;
  }

  /**
   * When the mirror image lies on the ring of a square of side at least 2,
   * one or two requested turns give the geometric rotation of the mirror image.
   */
  lemma TurnedReflectedOnRing(p: Position, i: Index, times: int, width: int, height: int)
    requires times == 1 || times == 2
    requires IsValid(Reflected(p, i), width, height)
    requires Side(LeftTop(i), width, height) >= 2
    requires OnRing(Reflected(p, i), LeftTop(i), Side(LeftTop(i), width, height))
    ensures TurnedReflected(p, i, times, width, height)
         == Some(RotatedTimes(Reflected(p, i), LeftTop(i), Side(LeftTop(i), width, height), times))
  {
    TurnedIsRotation(Reflected(p, i), LeftTop(i), Side(LeftTop(i), width, height), times);
  }

  // ---------------------------------------------------------------------
  // The scan of the first half.

  /** The positions the scan visits from p on, in visiting order. */
  function ScanFrom(p: Position, i: Index, width: int, height: int): (r: seq<Position>)
    decreases if i.axis == Row then i.value - p.row + 1 else height - p.row, LastColumn(i, width) - p.column
  {
    if !HasNext(p, i, width, height) then []
    else [p] + ScanFrom(NextPosition(p, i, width), i, width, height)
  }

  /**
   * The walk from p: it starts at p, every position on it passes the
   * continuation test, and each position is the successor of the one
   * before it.
   */
  lemma {:induction false} ScanFromWalk(p: Position, i: Index, width: int, height: int)
    ensures var s := ScanFrom(p, i, width, height);
      && (s != [] ==> s[0] == p)
      && (forall k | 0 <= k < |s| :: HasNext(s[k], i, width, height))
      && (forall k | 0 < k < |s| :: s[k] == NextPosition(s[k - 1], i, width))
    decreases if i.axis == Row then i.value - p.row + 1 else height - p.row, LastColumn(i, width) - p.column
  {
    if HasNext(p, i, width, height) {
      var next := NextPosition(p, i, width);
      ScanFromWalk(next, i, width, height);
      var s := ScanFrom(p, i, width, height);
      assert s == [p] + ScanFrom(next, i, width, height);
      assert forall k | 0 < k < |s| :: s[k] == ScanFrom(next, i, width, height)[k - 1];
    }
  }

  /** The positions the scan of cut i visits, in visiting order. */
  function Scan(i: Index, width: int, height: int): (r: seq<Position>)
    ensures r != [] ==> r[0] == Start()
    ensures i.value < 0 ==> r == []
  {
    ScanFrom(Start(), i, width, height)
  }

  /**
   * The set the scan covers. For a column cut it is every row and the
   * columns before the cut, except that a cut at column 0 still visits
   * column 0; for a row cut it is every column of rows 0 to i.value
   * inclusive, so the row just after the cut line is visited too.
   */
  predicate InScanRegion(q: Position, i: Index, width: int, height: int)
  {
    match i.axis
    case Row => 0 <= q.row <= i.value && 0 <= q.column < width
    case Column => 0 <= i.value && 0 <= q.row < height && 0 <= q.column && (q.column < i.value || q.column == 0)
  }

  /** Strict row-major order. */
  predicate Before(a: Position, b: Position)
  {
    a.row < b.row || (a.row == b.row && a.column < b.column)
  }

  /** Positions from which the scan can continue: the start and every position it steps to. */
  predicate ScanPoint(p: Position, i: Index, width: int)
  {
    0 <= p.row && 0 <= p.column && (p.column < LastColumn(i, width) || p.column == 0)
  }

  lemma {:induction false} ScanFromCovers(p: Position, i: Index, width: int, height: int, q: Position)
    requires ScanPoint(p, i, width)
    ensures q in ScanFrom(p, i, width, height) <==> InScanRegion(q, i, width, height) && !Before(q, p)
    decreases if i.axis == Row then i.value - p.row + 1 else height - p.row, LastColumn(i, width) - p.column
  {
    if HasNext(p, i, width, height) {
      var next := NextPosition(p, i, width);
      ScanFromCovers(next, i, width, height, q);
      assert ScanFrom(p, i, width, height) == [p] + ScanFrom(next, i, width, height);
      assert q in ScanFrom(p, i, width, height) <==> q == p || q in ScanFrom(next, i, width, height);
    }
  }

  /** The scan of cut i visits exactly the positions of its region. */
  lemma ScanCovers(i: Index, width: int, height: int, q: Position)
    ensures q in Scan(i, width, height) <==> InScanRegion(q, i, width, height)
  {
    ScanFromCovers(Start(), i, width, height, q);
  }

  lemma {:induction false} ScanFromOrdered(p: Position, i: Index, width: int, height: int)
    ensures forall k | 0 <= k < |ScanFrom(p, i, width, height)| :: !Before(ScanFrom(p, i, width, height)[k], p)
    ensures forall j, k | 0 <= j < k < |ScanFrom(p, i, width, height)| ::
              Before(ScanFrom(p, i, width, height)[j], ScanFrom(p, i, width, height)[k])
    decreases if i.axis == Row then i.value - p.row + 1 else height - p.row, LastColumn(i, width) - p.column
  {
    if HasNext(p, i, width, height) {
      var next := NextPosition(p, i, width);
      ScanFromOrdered(next, i, width, height);
      var s := ScanFrom(p, i, width, height);
      assert s == [p] + ScanFrom(next, i, width, height);
      assert Before(p, next);
      forall k | 0 < k < |s|
        ensures Before(p, s[k])
      {
        assert s[k] == ScanFrom(next, i, width, height)[k - 1];
      }
    }
  }

  /** The scan walks in strictly increasing row-major order, so it visits no position twice. */
  lemma ScanOrdered(i: Index, width: int, height: int)
    ensures forall j, k | 0 <= j < k < |Scan(i, width, height)| :: Before(Scan(i, width, height)[j], Scan(i, width, height)[k])
  {
    ScanFromOrdered(Start(), i, width, height);
  }
}
