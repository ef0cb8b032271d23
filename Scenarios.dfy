/**
 * Worked boards, computed from the board's functions: the column profile,
 * the bisection index found in it, the first number of turns whose
 * congruence test passes at the cut just after it, and the relabelling.
 * The boards of one row of three, one row of four, two rows of four, three
 * rows of four and the connected shape of four rows of five are those of
 * the repository's tests, and the results are compared with the buffers
 * those tests expect. The tests themselves call only `CutShapeImpl.cut()`,
 * which checks that the column profile holds half the total; the order
 * column split index, next index, first passing turn, relabelling is the
 * composition of the board's operations, which has no single operation of
 * its own. For the connected shape the profile does not hold half the
 * total, so the board leaves the cells unchanged rather than producing the
 * test's expected buffer. Further boards show a row cut, a bisection whose
 * half is not in the profile, and a turned image that leaves the board.
 */
module Scenarios {
  import opened Wrappers
  import opened Geometry
  import opened Grid
  import opened Search

  /** Three cells in one row: three first-piece cells cannot be halved. */
  lemma ThreeInARow()
    ensures var g := Grades([1, 1, 1], 3, 1, Column);
      g == [1, 2, 3] && g[|g| - 1] % 2 == 1
  {
    var cells := [1, 1, 1];
    var g := Grades(cells, 3, 1, Column);
    assert g[0] == 1 by { assert Sections(cells, 3, Column, 1, 1) == 1; }
    assert g[1] == 2 by { assert Sections(cells, 3, Column, 2, 1) == 2; }
    assert g[2] == 3 by { assert Sections(cells, 3, Column, 3, 1) == 3; }
  }

  /** Four cells in one row: the profile, and its bisection after column 1. */
  lemma FourInARowSplit(r: int)
    requires IsSearchResult([1, 2, 3, 4], 2, r)
    ensures Grades([1, 1, 1, 1], 4, 1, Column) == [1, 2, 3, 4]
    ensures r == 1 && Next(Index(r, Column)) == Index(2, Column)
  {
    SearchResultUnique([1, 2, 3, 4], 2, r, 1);
    var cells := [1, 1, 1, 1];
    var g := Grades(cells, 4, 1, Column);
    assert g[0] == 1 by { assert Sections(cells, 4, Column, 1, 1) == 1; }
    assert g[1] == 2 by { assert Sections(cells, 4, Column, 2, 1) == 2; }
    assert g[2] == 3 by { assert Sections(cells, 4, Column, 3, 1) == 3; }
    assert g[3] == 4 by { assert Sections(cells, 4, Column, 4, 1) == 4; }
  }

  /** Two rows of four: the profile, and its bisection after column 1. */
  lemma TwoRowsOfFourSplit(r: int)
    requires IsSearchResult([1, 3, 4, 6], 3, r)
    ensures Grades([0, 1, 1, 1, 1, 1, 0, 1], 4, 2, Column) == [1, 3, 4, 6]
    ensures r == 1 && Next(Index(r, Column)) == Index(2, Column)
  {
    SearchResultUnique([1, 3, 4, 6], 3, r, 1);
    var cells := [0, 1, 1, 1, 1, 1, 0, 1];
    var g := Grades(cells, 4, 2, Column);
    assert g[0] == 1 by { assert Sections(cells, 4, Column, 1, 2) == 1; }
    assert g[1] == 3 by { assert Sections(cells, 4, Column, 2, 2) == 3; }
    assert g[2] == 4 by { assert Sections(cells, 4, Column, 3, 2) == 4; }
    assert g[3] == 6 by { assert Sections(cells, 4, Column, 4, 2) == 6; }
  }

  // ---------------------------------------------------------------------
  // Two rows of four, cut after column 1. The lemmas below keep the cut,
  // the board size and the number of turns as parameters, so that the
  // verifier reasons about one turned position at a time instead of
  // evaluating the turning loop on every literal it meets.
  // ---------------------------------------------------------------------

  /** The cells of the board with rows [0, 1, 1, 1] and [1, 1, 0, 1]. */
  predicate TwoRowsOfFour(cells: seq<int>)
  {
    && |cells| == 8
    && cells[0] == 0 && cells[1] == 1 && cells[2] == 1 && cells[3] == 1
    && cells[4] == 1 && cells[5] == 1 && cells[6] == 0 && cells[7] == 1
  }

  /** The cut at column 2 of a 4 by 2 board. */
  predicate CutOfTwoRows(i: Index, width: int, height: int)
  {
    i.axis == Column && i.value == 2 && width == 4 && height == 2
  }

  /** Its scan walks the two columns left of the cut, row by row. */
  lemma HalfOfTwoRows()
    ensures Scan(Index(2, Column), 4, 2) == [Position(0, 0), Position(0, 1), Position(1, 0), Position(1, 1)]
  {
  }

  /** The square turned around is the 2 by 2 square right of the cut. */
  lemma SquareRightOfCut(i: Index, width: int, height: int)
    requires CutOfTwoRows(i, width, height)
    ensures Side(LeftTop(i), width, height) == 2
  {
    assert LeftTop(i) == Position(0, 2);
  }

  /** Every scanned position mirrors onto that square's ring. */
  lemma MirrorOntoSquare(p: Position, i: Index, width: int, height: int)
    requires CutOfTwoRows(i, width, height)
    requires 0 <= p.row < 2 && 0 <= p.column < 2
    ensures IsValid(Reflected(p, i), width, height)
    ensures OnRing(Reflected(p, i), LeftTop(i), 2)
  {
    assert LeftTop(i) == Position(0, 2);
    assert Reflected(p, i) == Position(p.row, 3 - p.column);
  }

  /** Two quarter turns of the mirror image of (r, c) land on (1 - r, 2 + c). */
  lemma HalfTurnOfMirror(p: Position, i: Index)
    requires i.axis == Column && i.value == 2
    requires 0 <= p.row < 2 && 0 <= p.column < 2
    ensures RotatedTimes(Reflected(p, i), LeftTop(i), 2, 2) == Position(1 - p.row, 2 + p.column)
  {
    var lt := LeftTop(i);
    assert lt == Position(0, 2);
    var m := Reflected(p, i);
    assert m == Position(p.row, 3 - p.column);
    var once := Rotated(m, lt, 2);
    assert once == Position(1 - p.column, 3 - p.row);
    assert RotatedTimes(m, lt, 2, 1) == once;
    assert Rotated(once, lt, 2) == Position(1 - p.row, 2 + p.column);
  }

  lemma TwoTurnsImage(p: Position, i: Index, width: int, height: int, turns: int)
    requires CutOfTwoRows(i, width, height) && turns == 2
    requires 0 <= p.row < 2 && 0 <= p.column < 2
    ensures TurnedReflected(p, i, turns, width, height) == Some(Position(1 - p.row, 2 + p.column))
  {
    SquareRightOfCut(i, width, height);
    MirrorOntoSquare(p, i, width, height);
    HalfTurnOfMirror(p, i);
    TurnedReflectedOnRing(p, i, turns, width, height);
  }

  lemma OneTurnImage(i: Index, width: int, height: int, turns: int)
    requires CutOfTwoRows(i, width, height) && turns == 1
    ensures TurnedReflected(Position(0, 0), i, turns, width, height) == Some(Position(1, 3))
  {
    SquareRightOfCut(i, width, height);
    MirrorOntoSquare(Position(0, 0), i, width, height);
    assert RotatedTimes(Reflected(Position(0, 0), i), LeftTop(i), 2, 1) == Position(1, 3) by {
      assert LeftTop(i) == Position(0, 2);
      assert Reflected(Position(0, 0), i) == Position(0, 3);
    }
    TurnedReflectedOnRing(Position(0, 0), i, turns, width, height);
  }

  lemma NoTurnImage(i: Index, width: int, height: int, turns: int)
    requires CutOfTwoRows(i, width, height) && turns == 0
    ensures TurnedReflected(Position(0, 0), i, turns, width, height) == Some(Position(0, 3))
  {
    MirrorOntoSquare(Position(0, 0), i, width, height);
    assert Reflected(Position(0, 0), i) == Position(0, 3);
  }

  lemma ReadTwoRows(cells: seq<int>, width: int, p: Position)
    requires TwoRowsOfFour(cells) && width == 4
    requires 0 <= p.row < 2 && 0 <= p.column < 4
    ensures ReadOccupied(cells, width, p) == Ok(cells[4 * p.row + p.column] == FirstPiece())
  {
    assert Flat(p, width) == 4 * p.row + p.column;
  }

  /** Each cell left of the cut matches the cell two quarter turns away. */
  lemma HalfTurnPairs(cells: seq<int>, p: Position)
    requires TwoRowsOfFour(cells)
    requires 0 <= p.row < 2 && 0 <= p.column < 2
    ensures cells[4 * p.row + p.column] == cells[4 * (1 - p.row) + 2 + p.column]
  {
  }

  /** The test passes when every walked position has an image that reads the same as the position. */
  lemma {:induction false} CongruentFromImages(cells: seq<int>, width: int, height: int, i: Index, turns: int, ps: seq<Position>, qs: seq<Position>)
    requires |qs| == |ps|
    requires forall k | 0 <= k < |ps| :: TurnedReflected(ps[k], i, turns, width, height) == Some(qs[k])
    requires forall k | 0 <= k < |ps| ::
               ReadOccupied(cells, width, ps[k]).Ok? && ReadOccupied(cells, width, qs[k]) == ReadOccupied(cells, width, ps[k])
    ensures CongruentFrom(cells, width, height, i, turns, ps) == Ok(true)
    decreases |ps|
  {
    if ps != [] {
      assert TurnedReflected(ps[0], i, turns, width, height) == Some(qs[0]);
      CongruentFromImages(cells, width, height, i, turns, ps[1..], qs[1..]);
    }
  }

  /** The test stops with a negative verdict at a first position that disagrees with its image. */
  lemma FirstDisagrees(cells: seq<int>, width: int, height: int, i: Index, turns: int, ps: seq<Position>, q: Position)
    requires ps != []
    requires TurnedReflected(ps[0], i, turns, width, height) == Some(q)
    requires ReadOccupied(cells, width, ps[0]).Ok? && ReadOccupied(cells, width, q).Ok?
    requires ReadOccupied(cells, width, q) != ReadOccupied(cells, width, ps[0])
    ensures CongruentFrom(cells, width, height, i, turns, ps) == Ok(false)
  {
  }

  /** Two quarter turns around the square right of the cut match the two halves. */
  lemma TwoRowsOfFourTwoTurns(cells: seq<int>, i: Index, width: int, height: int, turns: int)
    requires TwoRowsOfFour(cells)
    requires CutOfTwoRows(i, width, height) && turns == 2
    ensures Congruent(cells, width, height, i, turns) == Ok(true)
  {
    assert i == Index(2, Column);
    HalfOfTwoRows();
    var s := Scan(i, width, height);
    var qs := [Position(1, 2), Position(1, 3), Position(0, 2), Position(0, 3)];
    forall k | 0 <= k < |s|
      ensures TurnedReflected(s[k], i, turns, width, height) == Some(qs[k])
      ensures ReadOccupied(cells, width, s[k]).Ok? && ReadOccupied(cells, width, qs[k]) == ReadOccupied(cells, width, s[k])
    {
      TwoTurnsImage(s[k], i, width, height, turns);
      ReadTwoRows(cells, width, s[k]);
      ReadTwoRows(cells, width, qs[k]);
      HalfTurnPairs(cells, s[k]);
    }
    CongruentFromImages(cells, width, height, i, turns, s, qs);
  }

  /** The plain mirror and one quarter turn both fail at the first scanned position. */
  lemma TwoRowsOfFourFewerTurns(cells: seq<int>, i: Index, width: int, height: int, turns: int)
    requires TwoRowsOfFour(cells)
    requires CutOfTwoRows(i, width, height) && (turns == 0 || turns == 1)
    ensures Congruent(cells, width, height, i, turns) == Ok(false)
  {
    assert i == Index(2, Column);
    HalfOfTwoRows();
    var s := Scan(i, width, height);
    var q := if turns == 0 then Position(0, 3) else Position(1, 3);
    if turns == 0 {
      NoTurnImage(i, width, height, turns);
    } else {
      OneTurnImage(i, width, height, turns);
    }
    ReadTwoRows(cells, width, s[0]);
    ReadTwoRows(cells, width, q);
    FirstDisagrees(cells, width, height, i, turns, s, q);
  }

  /**
   * Two rows of four: the plain mirror and one quarter turn both fail, two
   * quarter turns around the 2 by 2 square right of the cut pass.
   */
  lemma TwoRowsOfFourTurns()
    ensures Congruent([0, 1, 1, 1, 1, 1, 0, 1], 4, 2, Index(2, Column), 0) == Ok(false)
    ensures Congruent([0, 1, 1, 1, 1, 1, 0, 1], 4, 2, Index(2, Column), 1) == Ok(false)
    ensures Congruent([0, 1, 1, 1, 1, 1, 0, 1], 4, 2, Index(2, Column), 2) == Ok(true)
  {
    TwoRowsOfFourFewerTurns([0, 1, 1, 1, 1, 1, 0, 1], Index(2, Column), 4, 2, 0);
    TwoRowsOfFourFewerTurns([0, 1, 1, 1, 1, 1, 0, 1], Index(2, Column), 4, 2, 1);
    TwoRowsOfFourTwoTurns([0, 1, 1, 1, 1, 1, 0, 1], Index(2, Column), 4, 2, 2);
  }

  /** One step of relabelling at a position whose image lies inside the buffer. */
  lemma RelabelStep(cells: seq<int>, width: int, height: int, i: Index, turns: int, ps: seq<Position>, q: Position)
    requires ps != [] && TurnedReflected(ps[0], i, turns, width, height) == Some(q)
    requires 0 <= Flat(q, width) < |cells|
    ensures RelabelFrom(cells, width, height, i, turns, ps)
         == RelabelFrom(if cells[Flat(q, width)] == FirstPiece() then cells[Flat(q, width) := SecondPiece()] else cells,
                        width, height, i, turns, ps[1..])
  {
  }

  /** Walking four positions whose images are cells 6, 7, 2 and 3 promotes the first-piece ones among them. */
  lemma RelabelOfTwoRows(cells: seq<int>, i: Index, width: int, height: int, turns: int, s: seq<Position>)
    requires TwoRowsOfFour(cells) && width == 4
    requires |s| == 4
    requires TurnedReflected(s[0], i, turns, width, height) == Some(Position(1, 2))
    requires TurnedReflected(s[1], i, turns, width, height) == Some(Position(1, 3))
    requires TurnedReflected(s[2], i, turns, width, height) == Some(Position(0, 2))
    requires TurnedReflected(s[3], i, turns, width, height) == Some(Position(0, 3))
    ensures RelabelFrom(cells, width, height, i, turns, s) == Relabelled([0, 1, 2, 2, 1, 1, 0, 2], None)
  {
    assert Flat(Position(1, 2), width) == 6 && Flat(Position(1, 3), width) == 7;
    assert Flat(Position(0, 2), width) == 2 && Flat(Position(0, 3), width) == 3;
    RelabelStep(cells, width, height, i, turns, s, Position(1, 2));
    var c2 := cells[7 := SecondPiece()];
    RelabelStep(cells, width, height, i, turns, s[1..], Position(1, 3));
    assert s[1..][1..] == s[2..];
    var c3 := c2[2 := SecondPiece()];
    RelabelStep(c2, width, height, i, turns, s[2..], Position(0, 2));
    assert s[2..][1..] == s[3..];
    var c4 := c3[3 := SecondPiece()];
    RelabelStep(c3, width, height, i, turns, s[3..], Position(0, 3));
    assert s[3..][1..] == [];
    assert c4 == [0, 1, 2, 2, 1, 1, 0, 2];
  }

  lemma TwoRowsOfFourRelabelled(cells: seq<int>, i: Index, width: int, height: int, turns: int)
    requires TwoRowsOfFour(cells)
    requires CutOfTwoRows(i, width, height) && turns == 2
    ensures Relabel(cells, width, height, i, turns) == Relabelled([0, 1, 2, 2, 1, 1, 0, 2], None)
  {
    assert i == Index(2, Column);
    HalfOfTwoRows();
    var s := Scan(i, width, height);
    TwoTurnsImage(s[0], i, width, height, turns);
    TwoTurnsImage(s[1], i, width, height, turns);
    TwoTurnsImage(s[2], i, width, height, turns);
    TwoTurnsImage(s[3], i, width, height, turns);
    RelabelOfTwoRows(cells, i, width, height, turns, s);
  }

  /** Two rows of four: relabelling with two turns marks the 2 by 2 square's first-piece cells. */
  lemma TwoRowsOfFourRelabel()
    ensures Relabel([0, 1, 1, 1, 1, 1, 0, 1], 4, 2, Index(2, Column), 2) == Relabelled([0, 1, 2, 2, 1, 1, 0, 2], None)
  {
    TwoRowsOfFourRelabelled([0, 1, 1, 1, 1, 1, 0, 1], Index(2, Column), 4, 2, 2);
  }

  // ---------------------------------------------------------------------
  // One row of four, cut after column 1, plain mirror.
  // ---------------------------------------------------------------------

  /** The cells of the board with the single row [1, 1, 1, 1]. */
  predicate FourInARow(cells: seq<int>)
  {
    |cells| == 4 && cells[0] == 1 && cells[1] == 1 && cells[2] == 1 && cells[3] == 1
  }

  /** The cut at column 2 of a 4 by 1 board. */
  predicate CutOfOneRow(i: Index, width: int, height: int)
  {
    i.axis == Column && i.value == 2 && width == 4 && height == 1
  }

  lemma HalfOfOneRow()
    ensures Scan(Index(2, Column), 4, 1) == [Position(0, 0), Position(0, 1)]
  {
  }

  /** Column c left of the cut mirrors onto column 3 - c. */
  lemma PlainMirrorImage(p: Position, i: Index, width: int, height: int, turns: int)
    requires CutOfOneRow(i, width, height) && turns == 0
    requires p.row == 0 && 0 <= p.column < 2
    ensures TurnedReflected(p, i, turns, width, height) == Some(Position(0, 3 - p.column))
  {
    assert Reflected(p, i) == Position(0, 3 - p.column);
  }

  lemma ReadOneRow(cells: seq<int>, width: int, p: Position)
    requires FourInARow(cells) && width == 4
    requires p.row == 0 && 0 <= p.column < 4
    ensures ReadOccupied(cells, width, p) == Ok(true)
  {
    assert Flat(p, width) == p.column;
  }

  lemma FourInARowMirrored(cells: seq<int>, i: Index, width: int, height: int, turns: int)
    requires FourInARow(cells)
    requires CutOfOneRow(i, width, height) && turns == 0
    ensures Congruent(cells, width, height, i, turns) == Ok(true)
    ensures Relabel(cells, width, height, i, turns) == Relabelled([1, 1, 2, 2], None)
  {
    assert i == Index(2, Column);
    HalfOfOneRow();
    var s := Scan(i, width, height);
    var qs := [Position(0, 3), Position(0, 2)];
    forall k | 0 <= k < |s|
      ensures TurnedReflected(s[k], i, turns, width, height) == Some(qs[k])
      ensures ReadOccupied(cells, width, s[k]).Ok? && ReadOccupied(cells, width, qs[k]) == ReadOccupied(cells, width, s[k])
    {
      PlainMirrorImage(s[k], i, width, height, turns);
      ReadOneRow(cells, width, s[k]);
      ReadOneRow(cells, width, qs[k]);
    }
    CongruentFromImages(cells, width, height, i, turns, s, qs);
    assert Flat(Position(0, 3), width) == 3 && Flat(Position(0, 2), width) == 2;
    RelabelStep(cells, width, height, i, turns, s, qs[0]);
    var c2 := cells[3 := SecondPiece()];
    RelabelStep(c2, width, height, i, turns, s[1..], qs[1]);
    assert s[1..][1..] == [];
    assert c2[2 := SecondPiece()] == [1, 1, 2, 2];
  }

  /** Four cells in one row: the plain mirror of columns 0, 1 onto 3, 2 passes and relabels columns 2, 3. */
  lemma FourInARowMirror()
    ensures Congruent([1, 1, 1, 1], 4, 1, Index(2, Column), 0) == Ok(true)
    ensures Relabel([1, 1, 1, 1], 4, 1, Index(2, Column), 0) == Relabelled([1, 1, 2, 2], None)
  {
    FourInARowMirrored([1, 1, 1, 1], Index(2, Column), 4, 1, 0);
  }

  // ---------------------------------------------------------------------
  // Three rows of four, each row its own mirror image: the plain mirror at
  // the cut after column 1 passes, and relabels the first-piece cells of
  // columns 2 and 3.
  // ---------------------------------------------------------------------

  /** The cells of the board with rows [0 1 1 0], [1 1 1 1], [1 0 0 1]. */
  predicate ThreeRowsOfFour(cells: seq<int>)
  {
    && |cells| == 12
    && cells[0] == 0 && cells[1] == 1 && cells[2] == 1 && cells[3] == 0
    && cells[4] == 1 && cells[5] == 1 && cells[6] == 1 && cells[7] == 1
    && cells[8] == 1 && cells[9] == 0 && cells[10] == 0 && cells[11] == 1
  }

  /** The cut at column 2 of a 4 by 3 board. */
  predicate CutOfThreeRows(i: Index, width: int, height: int)
  {
    i.axis == Column && i.value == 2 && width == 4 && height == 3
  }

  /** Column c of a board of three rows of four counts the first-piece cells at flat indices c, c + 4 and c + 8. */
  lemma ColumnOfThreeRows(cells: seq<int>, width: int, c: int)
    requires |cells| == 12 && width == 4 && 0 <= c < 4
    ensures LineCount(cells, width, Column, c, 3)
         == (if cells[c] == 1 then 1 else 0) + (if cells[c + 4] == 1 then 1 else 0) + (if cells[c + 8] == 1 then 1 else 0)
  {
    assert LineCell(cells, width, Column, c, 0) == cells[c];
    assert LineCell(cells, width, Column, c, 1) == cells[c + 4];
    assert LineCell(cells, width, Column, c, 2) == cells[c + 8];
  }

  /** Every column of the board holds two first-piece cells, so the profile is [2, 4, 6, 8]. */
  lemma ThreeRowsOfFourProfile(cells: seq<int>, width: int, height: int)
    requires ThreeRowsOfFour(cells) && width == 4 && height == 3
    ensures Grades(cells, width, height, Column) == [2, 4, 6, 8]
  {
    ColumnOfThreeRows(cells, width, 0);
    ColumnOfThreeRows(cells, width, 1);
    ColumnOfThreeRows(cells, width, 2);
    ColumnOfThreeRows(cells, width, 3);
    var g := Grades(cells, width, height, Column);
    assert g[1] == g[0] + LineCount(cells, width, Column, 1, 3);
    assert g[2] == g[1] + LineCount(cells, width, Column, 2, 3);
    assert g[3] == g[2] + LineCount(cells, width, Column, 3, 3);
  }

  lemma HalfOfThreeRows()
    ensures Scan(Index(2, Column), 4, 3)
         == [Position(0, 0), Position(0, 1), Position(1, 0), Position(1, 1), Position(2, 0), Position(2, 1)]
  {
  }

  /** Column c left of the cut mirrors onto column 3 - c of the same row. */
  lemma MirrorOfThreeRows(p: Position, i: Index, width: int, height: int, turns: int)
    requires CutOfThreeRows(i, width, height) && turns == 0
    requires 0 <= p.row < 3 && 0 <= p.column < 2
    ensures TurnedReflected(p, i, turns, width, height) == Some(Position(p.row, 3 - p.column))
  {
    assert Reflected(p, i) == Position(p.row, 3 - p.column);
  }

  lemma ReadThreeRows(cells: seq<int>, width: int, p: Position)
    requires |cells| == 12 && width == 4
    requires 0 <= p.row < 3 && 0 <= p.column < 4
    ensures ReadOccupied(cells, width, p) == Ok(cells[4 * p.row + p.column] == FirstPiece())
  {
    assert Flat(p, width) == 4 * p.row + p.column;
  }

  /** The plain mirror at the cut after column 1 passes. */
  lemma ThreeRowsOfFourMirrored(cells: seq<int>, i: Index, width: int, height: int, turns: int)
    requires ThreeRowsOfFour(cells)
    requires CutOfThreeRows(i, width, height) && turns == 0
    ensures Congruent(cells, width, height, i, turns) == Ok(true)
  {
    assert i == Index(2, Column);
    HalfOfThreeRows();
    var s := Scan(i, width, height);
    var qs := [Position(0, 3), Position(0, 2), Position(1, 3), Position(1, 2), Position(2, 3), Position(2, 2)];
    forall k | 0 <= k < |s|
      ensures TurnedReflected(s[k], i, turns, width, height) == Some(qs[k])
      ensures ReadOccupied(cells, width, s[k]).Ok? && ReadOccupied(cells, width, qs[k]) == ReadOccupied(cells, width, s[k])
    {
      MirrorOfThreeRows(s[k], i, width, height, turns);
      ReadThreeRows(cells, width, s[k]);
      ReadThreeRows(cells, width, qs[k]);
    }
    CongruentFromImages(cells, width, height, i, turns, s, qs);
  }

  /** Walking three positions whose images are cells 3, 2 and 7 promotes cells 2 and 7. */
  lemma RelabelOfThreeRowsFirst(cells: seq<int>, i: Index, width: int, height: int, turns: int, s: seq<Position>)
    requires |cells| == 12 && width == 4
    requires cells[3] != FirstPiece() && cells[2] == FirstPiece() && cells[7] == FirstPiece()
    requires |s| == 6
    requires TurnedReflected(s[0], i, turns, width, height) == Some(Position(0, 3))
    requires TurnedReflected(s[1], i, turns, width, height) == Some(Position(0, 2))
    requires TurnedReflected(s[2], i, turns, width, height) == Some(Position(1, 3))
    ensures RelabelFrom(cells, width, height, i, turns, s)
         == RelabelFrom(cells[2 := SecondPiece()][7 := SecondPiece()], width, height, i, turns, s[3..])
  {
    assert Flat(Position(0, 3), width) == 3 && Flat(Position(0, 2), width) == 2 && Flat(Position(1, 3), width) == 7;
    RelabelStep(cells, width, height, i, turns, s, Position(0, 3));
    RelabelStep(cells, width, height, i, turns, s[1..], Position(0, 2));
    assert s[1..][1..] == s[2..];
    var c2 := cells[2 := SecondPiece()];
    RelabelStep(c2, width, height, i, turns, s[2..], Position(1, 3));
    assert s[2..][1..] == s[3..];
  }

  /** Walking three positions whose images are cells 6, 11 and 10 promotes cells 6 and 11. */
  lemma RelabelOfThreeRowsRest(cells: seq<int>, i: Index, width: int, height: int, turns: int, s: seq<Position>)
    requires |cells| == 12 && width == 4
    requires cells[6] == FirstPiece() && cells[11] == FirstPiece() && cells[10] != FirstPiece()
    requires |s| == 3
    requires TurnedReflected(s[0], i, turns, width, height) == Some(Position(1, 2))
    requires TurnedReflected(s[1], i, turns, width, height) == Some(Position(2, 3))
    requires TurnedReflected(s[2], i, turns, width, height) == Some(Position(2, 2))
    ensures RelabelFrom(cells, width, height, i, turns, s)
         == Relabelled(cells[6 := SecondPiece()][11 := SecondPiece()], None)
  {
    assert Flat(Position(1, 2), width) == 6 && Flat(Position(2, 3), width) == 11 && Flat(Position(2, 2), width) == 10;
    RelabelStep(cells, width, height, i, turns, s, Position(1, 2));
    var c2 := cells[6 := SecondPiece()];
    RelabelStep(c2, width, height, i, turns, s[1..], Position(2, 3));
    assert s[1..][1..] == s[2..];
    var c3 := c2[11 := SecondPiece()];
    RelabelStep(c3, width, height, i, turns, s[2..], Position(2, 2));
    assert s[2..][1..] == [];
  }

  /** Relabelling along any six positions with the mirror images of the scan of three rows of four. */
  lemma RelabelOfThreeRows(cells: seq<int>, i: Index, width: int, height: int, turns: int, s: seq<Position>)
    requires |cells| == 12 && width == 4
    requires cells[3] != FirstPiece() && cells[2] == FirstPiece() && cells[7] == FirstPiece()
    requires cells[6] == FirstPiece() && cells[11] == FirstPiece() && cells[10] != FirstPiece()
    requires |s| == 6
    requires TurnedReflected(s[0], i, turns, width, height) == Some(Position(0, 3))
    requires TurnedReflected(s[1], i, turns, width, height) == Some(Position(0, 2))
    requires TurnedReflected(s[2], i, turns, width, height) == Some(Position(1, 3))
    requires TurnedReflected(s[3], i, turns, width, height) == Some(Position(1, 2))
    requires TurnedReflected(s[4], i, turns, width, height) == Some(Position(2, 3))
    requires TurnedReflected(s[5], i, turns, width, height) == Some(Position(2, 2))
    ensures RelabelFrom(cells, width, height, i, turns, s)
         == Relabelled(cells[2 := SecondPiece()][7 := SecondPiece()][6 := SecondPiece()][11 := SecondPiece()], None)
  {
    RelabelOfThreeRowsFirst(cells, i, width, height, turns, s);
    var c := cells[2 := SecondPiece()][7 := SecondPiece()];
    RelabelOfThreeRowsRest(c, i, width, height, turns, s[3..]);
  }

  /** The mirror relabelling at the cut after column 1 promotes cells 2, 7, 6 and 11 of any 4 by 3 board with these cells. */
  lemma ThreeRowsRelabelAt(cells: seq<int>, i: Index, width: int, height: int, turns: int)
    requires |cells| == 12
    requires cells[3] != FirstPiece() && cells[2] == FirstPiece() && cells[7] == FirstPiece()
    requires cells[6] == FirstPiece() && cells[11] == FirstPiece() && cells[10] != FirstPiece()
    requires CutOfThreeRows(i, width, height) && turns == 0
    ensures Relabel(cells, width, height, i, turns)
         == Relabelled(cells[2 := SecondPiece()][7 := SecondPiece()][6 := SecondPiece()][11 := SecondPiece()], None)
  {
    assert i == Index(2, Column);
    HalfOfThreeRows();
    var s := Scan(i, width, height);
    forall k | 0 <= k < |s|
      ensures TurnedReflected(s[k], i, turns, width, height) == Some(Position(s[k].row, 3 - s[k].column))
    {
      MirrorOfThreeRows(s[k], i, width, height, turns);
    }
    RelabelOfThreeRows(cells, i, width, height, turns, s);
  }

  lemma ThreeRowsOfFourRelabelled(cells: seq<int>, i: Index, width: int, height: int, turns: int)
    requires ThreeRowsOfFour(cells)
    requires CutOfThreeRows(i, width, height) && turns == 0
    ensures Relabel(cells, width, height, i, turns) == Relabelled([0, 1, 2, 0, 1, 1, 2, 2, 1, 0, 0, 2], None)
  {
    ThreeRowsRelabelAt(cells, i, width, height, turns);
    ThreeRowsPromoted(cells);
  }

  lemma ThreeRowsPromoted(cells: seq<int>)
    requires ThreeRowsOfFour(cells)
    ensures cells[2 := SecondPiece()][7 := SecondPiece()][6 := SecondPiece()][11 := SecondPiece()]
         == [0, 1, 2, 0, 1, 1, 2, 2, 1, 0, 0, 2]
  {
  }

  /**
   * Three rows of four: the profile [2, 4, 6, 8] bisects after column 1,
   * the plain mirror at the cut after it passes, so no turn is needed, and
   * relabelling marks the first-piece cells of columns 2 and 3.
   */
  lemma ThreeRowsOfFourCut(cells: seq<int>, width: int, height: int, r: int)
    requires ThreeRowsOfFour(cells) && width == 4 && height == 3
    requires IsSearchResult(Grades(cells, width, height, Column), 4, r)
    ensures Grades(cells, width, height, Column) == [2, 4, 6, 8]
    ensures r == 1 && Next(Index(r, Column)) == Index(2, Column)
    ensures Congruent(cells, width, height, Next(Index(r, Column)), 0) == Ok(true)
    ensures Relabel(cells, width, height, Next(Index(r, Column)), 0) == Relabelled([0, 1, 2, 0, 1, 1, 2, 2, 1, 0, 0, 2], None)
  {
    ThreeRowsOfFourProfile(cells, width, height);
    SearchResultUnique(Grades(cells, width, height, Column), 4, r, 1);
    ThreeRowsOfFourMirrored(cells, Index(2, Column), width, height, 0);
    ThreeRowsOfFourRelabelled(cells, Index(2, Column), width, height, 0);
  }

  // ---------------------------------------------------------------------
  // Two cells stacked in one column, cut between the rows. A row cut's scan
  // also visits the row just after the cut line, so its mirror image, the
  // row just before the line, is relabelled too.
  // ---------------------------------------------------------------------

  /** The cells of the board with the single column [1, 1]. */
  predicate StackedPair(cells: seq<int>)
  {
    |cells| == 2 && cells[0] == 1 && cells[1] == 1
  }

  /** The cut at row 1 of a 1 by 2 board. */
  predicate CutOfStackedPair(i: Index, width: int, height: int)
  {
    i.axis == Row && i.value == 1 && width == 1 && height == 2
  }

  lemma ScanOfStackedPair()
    ensures Scan(Index(1, Row), 1, 2) == [Position(0, 0), Position(1, 0)]
  {
  }

  /** Rows 0 and 1 mirror onto each other. */
  lemma StackedMirrorImage(p: Position, i: Index, width: int, height: int, turns: int)
    requires CutOfStackedPair(i, width, height) && turns == 0
    requires 0 <= p.row < 2 && p.column == 0
    ensures TurnedReflected(p, i, turns, width, height) == Some(Position(1 - p.row, 0))
  {
    assert Reflected(p, i) == Position(1 - p.row, 0);
  }

  /** Walking two positions whose images are cells 1 and 0 promotes both. */
  lemma RelabelOfStackedPair(cells: seq<int>, i: Index, width: int, height: int, turns: int, s: seq<Position>)
    requires StackedPair(cells) && width == 1
    requires |s| == 2
    requires TurnedReflected(s[0], i, turns, width, height) == Some(Position(1, 0))
    requires TurnedReflected(s[1], i, turns, width, height) == Some(Position(0, 0))
    ensures RelabelFrom(cells, width, height, i, turns, s) == Relabelled([2, 2], None)
  {
    assert Flat(Position(1, 0), width) == 1 && Flat(Position(0, 0), width) == 0;
    RelabelStep(cells, width, height, i, turns, s, Position(1, 0));
    var c2 := cells[1 := SecondPiece()];
    RelabelStep(c2, width, height, i, turns, s[1..], Position(0, 0));
    assert s[1..][1..] == [];
    assert c2[0 := SecondPiece()] == [2, 2];
  }

  lemma StackedPairRelabelled(cells: seq<int>, i: Index, width: int, height: int, turns: int)
    requires StackedPair(cells)
    requires CutOfStackedPair(i, width, height) && turns == 0
    ensures Relabel(cells, width, height, i, turns) == Relabelled([2, 2], None)
  {
    assert i == Index(1, Row);
    ScanOfStackedPair();
    var s := Scan(i, width, height);
    StackedMirrorImage(s[0], i, width, height, turns);
    StackedMirrorImage(s[1], i, width, height, turns);
    RelabelOfStackedPair(cells, i, width, height, turns, s);
  }

  lemma StackedPairProfile(cells: seq<int>, width: int, height: int)
    requires StackedPair(cells) && width == 1 && height == 2
    ensures Grades(cells, width, height, Row) == [1, 2]
  {
    assert LineCell(cells, width, Row, 0, 0) == cells[0];
    assert LineCell(cells, width, Row, 1, 0) == cells[1];
    var g := Grades(cells, width, height, Row);
    assert g[1] == g[0] + LineCount(cells, width, Row, 1, 1);
  }

  /**
   * Two stacked cells: the row profile bisects after row 0, and relabelling
   * across the cut at row 1 marks both cells, the one before the cut line
   * included.
   */
  lemma StackedPairRowCut(cells: seq<int>, width: int, height: int, r: int)
    requires StackedPair(cells) && width == 1 && height == 2
    requires IsSearchResult(Grades(cells, width, height, Row), 1, r)
    ensures Grades(cells, width, height, Row) == [1, 2]
    ensures r == 0 && Next(Index(r, Row)) == Index(1, Row)
    ensures Relabel(cells, width, height, Next(Index(r, Row)), 0) == Relabelled([2, 2], None)
  {
    StackedPairProfile(cells, width, height);
    SearchResultUnique(Grades(cells, width, height, Row), 1, r, 0);
    StackedPairRelabelled(cells, Index(1, Row), width, height, 0);
  }

  /**
   * Two cells side by side, bisected along the rows: the single row holds
   * both, so the total is even but no profile entry equals half of it, and
   * the search result is the negative not-found value -1.
   */
  lemma PairWithoutRowHalf(r: int)
    requires IsSearchResult([2], 1, r)
    ensures Grades([1, 1], 2, 1, Row) == [2]
    ensures r == -1
  {
    var cells := [1, 1];
    var g := Grades(cells, 2, 1, Row);
    assert g[0] == 2 by { assert Sections(cells, 2, Row, 1, 2) == 2; }
    SearchResultFound([2], 1, r);
    assert 1 !in [2];
  }

  // ---------------------------------------------------------------------
  // The connected shape of four rows of five. Its column profile does not
  // hold half the total, so the bisection index is negative, the cut just
  // after it lies before column 0, and nothing is relabelled.
  // ---------------------------------------------------------------------

  /** The cells of the connected shape: rows [0 0 1 1 1], [1 1 1 1 1], [1 1 1 1 0], [1 1 1 1 0]. */
  predicate ConnectedShape(cells: seq<int>)
  {
    && |cells| == 20
    && cells[0] == 0 && cells[1] == 0 && cells[2] == 1 && cells[3] == 1 && cells[4] == 1
    && cells[5] == 1 && cells[6] == 1 && cells[7] == 1 && cells[8] == 1 && cells[9] == 1
    && cells[10] == 1 && cells[11] == 1 && cells[12] == 1 && cells[13] == 1 && cells[14] == 0
    && cells[15] == 1 && cells[16] == 1 && cells[17] == 1 && cells[18] == 1 && cells[19] == 0
  }

  /** Column c of a board of four rows of five counts the first-piece cells at flat indices c, c + 5, c + 10 and c + 15. */
  lemma ColumnOfFourRows(cells: seq<int>, width: int, c: int)
    requires |cells| == 20 && width == 5 && 0 <= c < 5
    ensures LineCount(cells, width, Column, c, 4)
         == (if cells[c] == 1 then 1 else 0) + (if cells[c + 5] == 1 then 1 else 0)
          + (if cells[c + 10] == 1 then 1 else 0) + (if cells[c + 15] == 1 then 1 else 0)
  {
    assert LineCell(cells, width, Column, c, 0) == cells[c];
    assert LineCell(cells, width, Column, c, 1) == cells[c + 5];
    assert LineCell(cells, width, Column, c, 2) == cells[c + 10];
    assert LineCell(cells, width, Column, c, 3) == cells[c + 15];
  }

  /** Columns 0 to 4 of the connected shape hold 3, 3, 4, 4 and 2 first-piece cells. */
  lemma ConnectedShapeColumns(cells: seq<int>, width: int)
    requires ConnectedShape(cells) && width == 5
    ensures LineCount(cells, width, Column, 0, 4) == 3
    ensures LineCount(cells, width, Column, 1, 4) == 3
    ensures LineCount(cells, width, Column, 2, 4) == 4
    ensures LineCount(cells, width, Column, 3, 4) == 4
    ensures LineCount(cells, width, Column, 4, 4) == 2
  {
    ColumnOfFourRows(cells, width, 0);
    ColumnOfFourRows(cells, width, 1);
    ColumnOfFourRows(cells, width, 2);
    ColumnOfFourRows(cells, width, 3);
    ColumnOfFourRows(cells, width, 4);
  }

  /** A profile of five columns of four rows, from the count of each column. */
  lemma ProfileOfColumnCounts(cells: seq<int>, width: int, height: int)
    requires |cells| == 20 && width == 5 && height == 4
    requires LineCount(cells, width, Column, 0, 4) == 3
    requires LineCount(cells, width, Column, 1, 4) == 3
    requires LineCount(cells, width, Column, 2, 4) == 4
    requires LineCount(cells, width, Column, 3, 4) == 4
    requires LineCount(cells, width, Column, 4, 4) == 2
    ensures Grades(cells, width, height, Column) == [3, 6, 10, 14, 16]
  {
    var g := Grades(cells, width, height, Column);
    assert g[1] == g[0] + LineCount(cells, width, Column, 1, 4);
    assert g[2] == g[1] + LineCount(cells, width, Column, 2, 4);
    assert g[3] == g[2] + LineCount(cells, width, Column, 3, 4);
    assert g[4] == g[3] + LineCount(cells, width, Column, 4, 4);
  }

  /** The column profile of the connected shape. */
  lemma ConnectedShapeProfile(cells: seq<int>, width: int, height: int)
    requires ConnectedShape(cells) && width == 5 && height == 4
    ensures Grades(cells, width, height, Column) == [3, 6, 10, 14, 16]
  {
    ConnectedShapeColumns(cells, width);
    ProfileOfColumnCounts(cells, width, height);
  }

  /**
   * Half of 16 is not in the profile: the search result is -3, and the cut
   * just after it is at column -2. There every turn count passes the
   * congruence test and relabelling returns the buffer unchanged, which
   * differs from the relabelled buffer the repository's test expects.
   */
  lemma ConnectedShapeUnchanged(cells: seq<int>, width: int, height: int, r: int, turns: int)
    requires ConnectedShape(cells) && width == 5 && height == 4
    requires IsSearchResult(Grades(cells, width, height, Column), 8, r)
    ensures Grades(cells, width, height, Column) == [3, 6, 10, 14, 16]
    ensures r == -3 && Next(Index(r, Column)) == Index(-2, Column)
    ensures Congruent(cells, width, height, Next(Index(r, Column)), turns) == Ok(true)
    ensures Relabel(cells, width, height, Next(Index(r, Column)), turns) == Relabelled(cells, None)
    ensures cells != [0, 0, 1, 1, 2, 1, 1, 1, 2, 2, 1, 1, 2, 2, 0, 1, 2, 2, 2, 0]
  {
    ConnectedShapeProfile(cells, width, height);
    SearchWithoutEight(Grades(cells, width, height, Column), r);
    NegativeSplitIsVacuous(cells, width, height, Column, r, turns);
    assert cells[4] != 2;
  }

  /** 8 lies between the entries at indices 1 and 2 of the profile, so the search result is -(2) - 1. */
  lemma SearchWithoutEight(a: seq<int>, r: int)
    requires a == [3, 6, 10, 14, 16] && IsSearchResult(a, 8, r)
    ensures r == -3
  {
    SearchResultFound(a, 8, r);
    assert 8 !in a;
    assert a[1] < 8 < a[2];
  }

  // ---------------------------------------------------------------------
  // A turned image off the board. The cut is in range, but the square at
  // the cut is smaller than the scanned half, so the step moves a mirror
  // image outside the square, and off the board.
  // ---------------------------------------------------------------------

  /**
   * On a board 4 wide and 5 tall, cut at column 2 with one turn, the scanned
   * position (4, 0) mirrors onto (4, 3), below the 2 by 2 square at (0, 2).
   * The step sends it to (0, -1), whose flat index -1 is outside any buffer,
   * so reading it faults at -1.
   */
  lemma TurnedImageLeavesBoard(cells: seq<int>, p: Position, i: Index, width: int, height: int)
    requires |cells| == 20 && width == 4 && height == 5
    requires i.axis == Column && i.value == 2 && p.row == 4 && p.column == 0
    ensures p in Scan(i, width, height)
    ensures IsValid(Reflected(p, i), width, height)
    ensures TurnedReflected(p, i, 1, width, height) == Some(Position(0, -1))
    ensures ReadOccupied(cells, width, Position(0, -1)) == OutOfBounds(-1)
  {
    ScanCovers(i, width, height, p);
    assert Reflected(p, i) == Position(4, 3);
    assert LeftTop(i) == Position(0, 2);
    assert Side(LeftTop(i), width, height) == 2;
    assert TurnStep(Position(4, 3), Position(0, 2), 2) == Position(0, -1);
    assert Turned(Position(4, 3), Position(0, 2), 2, 1) == Position(0, -1);
  }
}
