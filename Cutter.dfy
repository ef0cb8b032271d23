/**
 * The board: a row-major buffer of cells with its width and height, the
 * occupancy profile and bisection search along an axis, the congruence
 * test of a cut with 0, 1 or 2 quarter turns, and the in-place relabelling
 * of the mirrored half. Each method is proved against the functions of
 * module Grid; an unchecked array read of the source that can fall outside
 * the buffer makes the method return the offending flat index.
 */
module Cutter {
  import opened Wrappers
  import opened Geometry
  import opened Grid
  import opened Search

  /** The outcome of validating the constructor's arguments: the height, or why they are rejected. */
  datatype Dimensions = Height(height: int) | NonPositiveWidth | NotMultipleOfWidth

  /**
   * The constructor's validation: the width must be positive (checked
   * first), and the length must be a multiple of it; the height is then the
   * number of whole rows.
   */
  function CheckDimensions(length: nat, width: int): (r: Dimensions)
    ensures r == NonPositiveWidth <==> width <= 0
    ensures r.Height? <==> width > 0 && length % width == 0
    ensures r.Height? ==> r.height >= 0 && r.height * width == length
  {
    if width <= 0 then NonPositiveWidth
    else if length % width != 0 then NotMultipleOfWidth
    else Height(length / width)
  }

  class Board {
    const values: array<int>
    const width: int
    const height: int

    ghost predicate Valid()
    {
      width > 0 && height >= 0 && values.Length == width * height
    }

    /** Builds a board over the caller's buffer, which it shares rather than copies. */
    constructor (input: array<int>, width: int)
      requires CheckDimensions(input.Length, width).Height?
      ensures Valid()
      ensures values == input && this.width == width
      ensures height == CheckDimensions(input.Length, width).height
    {
      values := input;
      this.width := width;
      height := input.Length / width;
    }

    /** Whether the cell at p holds the first piece; a flat index outside the buffer faults. */
    method IsCellOccupied(p: Position) returns (r: Outcome<bool>)
      ensures r == ReadOccupied(values[..], width, p)
    {
      var index := Flat(p, width);
      if 0 <= index < values.Length {
        r := Ok(values[index] == FirstPiece());
      } else {
        r := OutOfBounds(index);
      }
    }

    /** Whether cell k of cross-section i holds the first piece. */
    method IsLineCellOccupied(i: Index, k: int) returns (occupied: bool)
      requires Valid()
      requires 0 <= i.value < Limit(i.axis, width, height) && 0 <= k < Limit(OppositeType(i.axis), width, height)
      ensures occupied <==> LineCell(values[..], width, i.axis, i.value, k) == FirstPiece()
    {
      var p := if i.axis == Row then Position(i.value, k) else Position(k, i.value);
      FlatOfValid(p, width, height);
      occupied := values[Flat(p, width)] == FirstPiece();
    }

    method SetValue(p: Position, value: int)
      requires 0 <= Flat(p, width) < values.Length
      modifies values
      ensures values[..] == old(values[..])[Flat(p, width) := value]
    {
      values[Flat(p, width)] := value;
    }

    /** The number of first-piece cells in cross-section i. */
    method CalculateTotal(i: Index) returns (sum: int)
      requires Valid()
      requires 0 <= i.value < Limit(i.axis, width, height)
      ensures sum == LineCount(values[..], width, i.axis, i.value, Limit(OppositeType(i.axis), width, height))
    {
      sum := 0;
      var limit := Limit(OppositeType(i.axis), width, height);
      for k := 0 to limit
        invariant sum == LineCount(values[..], width, i.axis, i.value, k)
      {
        var occupied := IsLineCellOccupied(i, k);
        if occupied {
          sum := sum + 1;
        }
      }
    }

    /** The occupancy profile along axis t, in a new array. */
    method GetGrades(t: IndexType) returns (grades: array<int>)
      requires Valid()
      ensures fresh(grades)
      ensures grades[..] == Grades(values[..], width, height, t)
    {
      var n := Limit(OppositeType(t), width, height);
      grades := new int[Limit(t, width, height)];
      var total := 0;
      for k := 0 to grades.Length
        invariant total == Sections(values[..], width, t, k, n)
        invariant forall j | 0 <= j < k :: grades[j] == Sections(values[..], width, t, j + 1, n)
      {
        var count := CalculateTotal(Index(k, t));
        total := total + count;
        grades[k] := total;
      }
    }

    /**
     * The bisection index along axis t: absent when the number of
     * first-piece cells is odd; otherwise whatever the binary search for half
     * of it returns, including a negative not-found result. A board without
     * rows has an empty row profile, and reading its last entry faults at
     * index -1.
     */
    method GetSplitIndex(t: IndexType) returns (r: Outcome<Option<Index>>)
      requires Valid()
      ensures var g := Grades(values[..], width, height, t);
        && (r.OutOfBounds? <==> |g| == 0)
        && (r.OutOfBounds? ==> r.index == -1)
        && (r.Ok? ==> (r.value.Some? <==> g[|g| - 1] % 2 == 0))
        && (r.Ok? && r.value.Some? ==> r.value.value.axis == t && IsSearchResult(g, g[|g| - 1] / 2, r.value.value.value))
    {
      var grades := GetGrades(t);
      GradesProfile(values[..], width, height, t);
      if grades.Length == 0 {
        return OutOfBounds(-1);
      }
      var total := grades[grades.Length - 1];
      if total % 2 == 0 {
        var half := total / 2;
        var index := BinarySearch(grades, half);
        return Ok(Some(Index(index, t)));
      }
      return Ok(None);
    }

    /** Turns p around the square (leftTop, side): one pass, or `times` passes when times is above 1. */
    static method TurnClockwise(p: Position, leftTop: Position, side: int, times: int) returns (position: Position)
      ensures position == Turned(p, leftTop, side, TurnPasses(times))
    {
      var count := times;
      position := p;
      ghost var passes: nat := 0;
      var again := true;
      while again
        invariant position == Turned(p, leftTop, side, passes)
        invariant count == times - passes
        invariant again ==> passes < TurnPasses(times) && (passes == 0 || count > 0)
        invariant !again ==> passes == TurnPasses(times)
        decreases TurnPasses(times) - passes
      {
        var bottomRow := leftTop.row + side - 1;
        var rightColumn := leftTop.column + side - 1;
        var columnOffset := position.column - leftTop.column;
        var rowOffset := position.row - leftTop.row;
        if IsTopEdge(position, leftTop, side) {
          position := Position(leftTop.row + columnOffset, rightColumn);
        } else if IsRightEdge(position, leftTop, side) {
          position := Position(bottomRow, rightColumn - rowOffset);
        } else if IsBottomEdge(position, leftTop, side) {
          position := Position(bottomRow - (rightColumn - position.column), leftTop.column);
        } else {
          position := Position(leftTop.row, leftTop.column + (bottomRow - position.row));
        }
        passes := passes + 1;
        count := count - 1;
        again := count > 0;
      }
    }

    /** The image of p under reflection across cut i and `times` quarter turns, if the mirror image is on the board. */
    method GetTurnedReflectedPosition(p: Position, i: Index, times: int) returns (r: Option<Position>)
      ensures r == TurnedReflected(p, i, times, width, height)
    {
      var position := Reflected(p, i);
      if !IsValid(position, width, height) {
        return None;
      }
      if times == 0 {
        return Some(position);
      }
      var leftTop := LeftTop(i);
      var side := Side(leftTop, width, height);
      if side == 1 {
        return Some(position);
      }
      var turned := TurnClockwise(position, leftTop, side, times);
      return Some(turned);
    }

    /** Whether every scanned position holds the first piece exactly when its image does. */
    method IsTurnedReflectionSame(i: Index, turns: int) returns (r: Outcome<bool>)
      ensures r == Congruent(values[..], width, height, i, turns)
    {
      var position := Start();
      while HasNext(position, i, width, height)
        invariant CongruentFrom(values[..], width, height, i, turns, ScanFrom(position, i, width, height))
               == Congruent(values[..], width, height, i, turns)
        decreases if i.axis == Row then i.value - position.row + 1 else height - position.row,
                  LastColumn(i, width) - position.column
      {
        ghost var rest := ScanFrom(NextPosition(position, i, width), i, width, height);
        assert ([position] + rest)[1..] == rest;
        var occupied := IsCellOccupied(position);
        if occupied.OutOfBounds? {
          return OutOfBounds(occupied.index);
        }
        var reflectedPosition := GetTurnedReflectedPosition(position, i, turns);
        if reflectedPosition.Some? {
          var reflectedOccupied := IsCellOccupied(reflectedPosition.value);
          if reflectedOccupied.OutOfBounds? {
            return OutOfBounds(reflectedOccupied.index);
          }
          if occupied.value != reflectedOccupied.value {
            return Ok(false);
          }
        }
        position := NextPosition(position, i, width);
      }
      return Ok(true);
    }

    /** The first number of turns, among 0, 1 and 2, for which the congruence test passes. */
    method GetTurnCountForSameReflection(i: Index) returns (r: Outcome<Option<int>>)
      ensures r.Ok? && r.value.Some? ==>
        && 0 <= r.value.value < TurnCount
        && Congruent(values[..], width, height, i, r.value.value) == Ok(true)
        && forall t | 0 <= t < r.value.value :: Congruent(values[..], width, height, i, t) == Ok(false)
      ensures r.Ok? && r.value.None? ==>
        forall t | 0 <= t < TurnCount :: Congruent(values[..], width, height, i, t) == Ok(false)
      ensures r.OutOfBounds? ==>
        exists t | 0 <= t < TurnCount ::
          && Congruent(values[..], width, height, i, t) == OutOfBounds(r.index)
          && forall u | 0 <= u < t :: Congruent(values[..], width, height, i, u) == Ok(false)
    {
      for turns := 0 to TurnCount
        invariant forall t | 0 <= t < turns :: Congruent(values[..], width, height, i, t) == Ok(false)
      {
        var same := IsTurnedReflectionSame(i, turns);
        if same.OutOfBounds? {
          return OutOfBounds(same.index);
        }
        if same.value {
          return Ok(Some(turns));
        }
      }
      return Ok(None);
    }

    /**
     * Relabels, in place, every first-piece cell at an image of a scanned
     * position as the second piece. Returns the flat index of an image that
     * fell outside the buffer, if one did; the writes made before it stay.
     */
    method SplitInTwoParts(i: Index, turns: int) returns (thrown: Option<int>)
      modifies values
      ensures values[..] == Relabel(old(values[..]), width, height, i, turns).cells
      ensures thrown == Relabel(old(values[..]), width, height, i, turns).fault
    {
      var position := Start();
      while HasNext(position, i, width, height)
        invariant RelabelFrom(values[..], width, height, i, turns, ScanFrom(position, i, width, height))
               == Relabel(old(values[..]), width, height, i, turns)
        decreases if i.axis == Row then i.value - position.row + 1 else height - position.row,
                  LastColumn(i, width) - position.column
      {
        ghost var rest := ScanFrom(NextPosition(position, i, width), i, width, height);
        assert ([position] + rest)[1..] == rest;
        var turnedReflectedPosition := GetTurnedReflectedPosition(position, i, turns);
        if turnedReflectedPosition.Some? {
          var occupied := IsCellOccupied(turnedReflectedPosition.value);
          if occupied.OutOfBounds? {
            return Some(occupied.index);
          }
          if occupied.value {
            SetValue(turnedReflectedPosition.value, SecondPiece());
          }
        }
        position := NextPosition(position, i, width);
      }
      return None;
    }
  }
}
