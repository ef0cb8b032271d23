/**
 * What the board computes, as functions of its row-major cell buffer:
 * the occupancy profile along an axis, the congruence test of a cut, and
 * the relabelling of the mirrored half. The methods of Cutter.Board are
 * proved against these functions.
 *
 * Cells are read through the flat index row * width + column with no
 * check that the column is below the width, exactly as the source does: a
 * position past the end of a row reads a cell of the next row, and a flat
 * index outside the buffer is an out-of-bounds fault.
 */
module Grid {
  import opened Wrappers
  import opened Geometry

  // The cell values empty, first piece and second piece. They are functions
  // rather than constants so that the verifier evaluates them directly when
  // it computes the worked boards of Scenarios.
  function EmptyBlock(): (r: int) { 0 }
  function FirstPiece(): (r: int) { 1 }
  function SecondPiece(): (r: int) { 2 }

  /** How many turn counts the congruence search tries: 0, 1 and 2. */
  const TurnCount := 3

  /** A buffer of `height` rows of `width` cells. */
  predicate Shaped(cells: seq<int>, width: int, height: int)
  {
    width > 0 && height >= 0 && |cells| == width * height
  }

  /** The flat index of a position. */
  function Flat(p: Position, width: int): (r: int)
  {
    p.row * width + p.column
  }

  /** A position on the board has a flat index inside the buffer. */
  lemma FlatOfValid(p: Position, width: int, height: int)
    requires width > 0 && IsValid(p, width, height)
    ensures 0 <= Flat(p, width) < width * height
  {
    assert p.row * width <= (height - 1) * width by {
      MulMonotone(p.row, height - 1, width);
    }
    assert (height - 1) * width == height * width - width;
  }

  /** The flat index of a position whose column is below the width gives the position back. */
  lemma FlatInverse(p: Position, width: int)
    requires 0 <= p.column < width
    ensures Flat(p, width) / width == p.row && Flat(p, width) % width == p.column
  {
    DivModUnique(Flat(p, width), width, p.row, p.column);
  }

  lemma MulMonotone(a: int, b: int, c: int)
    requires a <= b && c >= 0
    ensures a * c <= b * c
  {
    assert b * c - a * c == (b - a) * c;
  }

  lemma DivModUnique(f: int, width: int, q: int, m: int)
    requires width > 0 && 0 <= m < width && f == q * width + m
    ensures f / width == q && f % width == m
  {
    var q' := f / width;
    var m' := f % width;
    assert f == q' * width + m';
    assert (q - q') * width == m' - m;
    if q > q' {
      MulMonotone(1, q - q', width);
    } else if q < q' {
      MulMonotone(1, q' - q, width);
    }
  }

  /** Whether the cell at p holds the first piece, or the flat index that is outside the buffer. */
  function ReadOccupied(cells: seq<int>, width: int, p: Position): (r: Outcome<bool>)
  {
    if 0 <= Flat(p, width) < |cells| then Ok(cells[Flat(p, width)] == FirstPiece())
    else OutOfBounds(Flat(p, width))
  }

  /** Reading a position on the board never faults. */
  lemma ReadOfValid(cells: seq<int>, width: int, height: int, p: Position)
    requires Shaped(cells, width, height) && IsValid(p, width, height)
    ensures 0 <= Flat(p, width) < |cells|
    ensures ReadOccupied(cells, width, p) == Ok(cells[Flat(p, width)] == FirstPiece())
  {
    FlatOfValid(p, width, height);
    var f := Flat(p, width);
    assert 0 <= f < |cells|;
  }

  /** A read faults exactly when the flat index is outside the buffer, and the fault carries that index. */
  lemma ReadOutsideBuffer(cells: seq<int>, width: int, p: Position)
    ensures ReadOccupied(cells, width, p).OutOfBounds? <==> !(0 <= Flat(p, width) < |cells|)
    ensures ReadOccupied(cells, width, p).OutOfBounds? ==> ReadOccupied(cells, width, p).index == Flat(p, width)
  {
  }

  // ---------------------------------------------------------------------
  // The occupancy profile.

  /** The flat index of cell j of cross-section k along axis t: row k, column j for a row, the transpose for a column. */
  function LineFlat(t: IndexType, width: int, k: int, j: int): (r: int)
  {
    if t == Row then k * width + j else j * width + k
  }

  /** The value of cell j of cross-section k along axis t; a flat index outside the buffer counts as an empty cell. */
  function LineCell(cells: seq<int>, width: int, t: IndexType, k: int, j: int): (r: int)
  {
    if 0 <= LineFlat(t, width, k, j) < |cells| then cells[LineFlat(t, width, k, j)] else EmptyBlock()
  }

  /**
   * Cell j of cross-section k is the position (k, j) of a row or (j, k) of
   * a column: its flat index is that position's, and wherever that position
   * reads without fault, the cell holds the first piece exactly when the
   * read says so.
   */
  lemma LineCellRead(cells: seq<int>, width: int, t: IndexType, k: int, j: int)
    ensures var p := if t == Row then Position(k, j) else Position(j, k);
      && LineFlat(t, width, k, j) == Flat(p, width)
      && (ReadOccupied(cells, width, p).Ok? ==> (LineCell(cells, width, t, k, j) == FirstPiece() <==> ReadOccupied(cells, width, p) == Ok(true)))
  {
  }

  /** How many of the first n cells of cross-section k along axis t hold the first piece. */
  function LineCount(cells: seq<int>, width: int, t: IndexType, k: int, n: int): (r: nat)
    ensures n >= 0 ==> r <= n
    decreases n
  {
    if n <= 0 then 0
    else LineCount(cells, width, t, k, n - 1) + if LineCell(cells, width, t, k, n - 1) == FirstPiece() then 1 else 0
  }

  /** How many cells hold the first piece among the first n cells of cross-sections 0 .. m - 1 along axis t. */
  function Sections(cells: seq<int>, width: int, t: IndexType, m: int, n: int): (r: nat)
    decreases m
  {
    if m <= 0 then 0
    else Sections(cells, width, t, m - 1, n) + LineCount(cells, width, t, m - 1, n)
  }

  /** The occupancy profile along axis t: entry k counts the first-piece cells of cross-sections 0 .. k. */
  function Grades(cells: seq<int>, width: int, height: int, t: IndexType): (g: seq<int>)
    requires Shaped(cells, width, height)
    ensures |g| == Limit(t, width, height)
    ensures |g| > 0 ==> g[0] == LineCount(cells, width, t, 0, Limit(OppositeType(t), width, height))
    ensures forall k | 0 < k < |g| :: g[k] == g[k - 1] + LineCount(cells, width, t, k, Limit(OppositeType(t), width, height))
  {
    seq(Limit(t, width, height), k requires 0 <= k < Limit(t, width, height) =>
      Sections(cells, width, t, k + 1, Limit(OppositeType(t), width, height)))
  }

  /** How many cells of the buffer hold the first piece. */
  function Ones(cells: seq<int>): (r: nat)
  {
    if cells == [] then 0
    else Ones(cells[..|cells| - 1]) + if cells[|cells| - 1] == FirstPiece() then 1 else 0
  }

  lemma {:induction false} OnesOfRowPrefix(cells: seq<int>, width: int, height: int, k: int, n: int)
    requires Shaped(cells, width, height) && 0 <= k < height && 0 <= n <= width
    ensures k * width + n <= |cells|
    ensures Ones(cells[..k * width + n]) == Ones(cells[..k * width]) + LineCount(cells, width, Row, k, n)
    decreases n
  {
    FlatOfValid(Position(k, 0), width, height);
    if n > 0 {
      OnesOfRowPrefix(cells, width, height, k, n - 1);
      FlatOfValid(Position(k, n - 1), width, height);
      var f := k * width + n - 1;
      assert cells[..f + 1][..f] == cells[..f];
    }
  }

  /** Counting row by row counts the first rows of the buffer. */
  lemma {:induction false} RowSectionsCount(cells: seq<int>, width: int, height: int, m: int)
    requires Shaped(cells, width, height) && 0 <= m <= height
    ensures m * width <= |cells|
    ensures Sections(cells, width, Row, m, width) == Ones(cells[..m * width])
  {
    MulMonotone(m, height, width);
    if m > 0 {
      RowSectionsCount(cells, width, height, m - 1);
      OnesOfRowPrefix(cells, width, height, m - 1, width);
      assert (m - 1) * width + width == m * width;
    }
  }

  /** Adding row n to the first m columns adds the first m cells of row n. */
  lemma {:induction false} ColumnSectionsGrow(cells: seq<int>, width: int, height: int, m: int, n: int)
    requires Shaped(cells, width, height) && 0 <= m <= width && 0 <= n < height
    ensures Sections(cells, width, Column, m, n + 1)
         == Sections(cells, width, Column, m, n) + LineCount(cells, width, Row, n, m)
  {
    if m > 0 {
      ColumnSectionsGrow(cells, width, height, m - 1, n);
      assert LineCell(cells, width, Column, m - 1, n) == LineCell(cells, width, Row, n, m - 1);
    }
  }

  lemma {:induction false} SectionsOfNoCells(cells: seq<int>, width: int, height: int, t: IndexType, m: int)
    requires Shaped(cells, width, height) && 0 <= m <= Limit(t, width, height)
    ensures Sections(cells, width, t, m, 0) == 0
  {
    if m > 0 {
      SectionsOfNoCells(cells, width, height, t, m - 1);
    }
  }

  /** Counting column by column gives the same total as counting row by row. */
  lemma {:induction false} ColumnSectionsCount(cells: seq<int>, width: int, height: int, n: int)
    requires Shaped(cells, width, height) && 0 <= n <= height
    ensures Sections(cells, width, Column, width, n) == Sections(cells, width, Row, n, width)
  {
    if n > 0 {
      ColumnSectionsCount(cells, width, height, n - 1);
      ColumnSectionsGrow(cells, width, height, width, n - 1);
      assert Sections(cells, width, Row, n, width)
          == Sections(cells, width, Row, n - 1, width) + LineCount(cells, width, Row, n - 1, width);
    } else {
      SectionsOfNoCells(cells, width, height, Column, width);
    }
  }

  /**
   * The profile has one entry per cross-section; it starts at or above 0,
   * never decreases, grows by at most one full cross-section per step, and
   * its last entry is the number of first-piece cells of the whole board.
   */
  lemma GradesProfile(cells: seq<int>, width: int, height: int, t: IndexType)
    requires Shaped(cells, width, height)
    ensures var g := Grades(cells, width, height, t);
      && |g| == Limit(t, width, height)
      && (forall k | 0 <= k < |g| :: 0 <= g[k])
      && (|g| > 0 ==> g[0] <= Limit(OppositeType(t), width, height))
      && (forall k | 0 < k < |g| :: g[k - 1] <= g[k] <= g[k - 1] + Limit(OppositeType(t), width, height))
      && (forall j, k | 0 <= j <= k < |g| :: g[j] <= g[k])
      && (|g| > 0 ==> g[|g| - 1] == Ones(cells))
  {
    GradesSteps(cells, width, height, t);
    GradesSorted(cells, width, height, t);
    GradesTotal(cells, width, height, t);
  }

  lemma GradesSteps(cells: seq<int>, width: int, height: int, t: IndexType)
    requires Shaped(cells, width, height)
    ensures var g := Grades(cells, width, height, t);
      && (|g| > 0 ==> 0 <= g[0] <= Limit(OppositeType(t), width, height))
      && (forall k | 0 < k < |g| :: g[k - 1] <= g[k] <= g[k - 1] + Limit(OppositeType(t), width, height))
  {
    var g := Grades(cells, width, height, t);
    var n := Limit(OppositeType(t), width, height);
    if |g| > 0 {
      assert g[0] == LineCount(cells, width, t, 0, n);
    }
    forall k | 0 < k < |g|
      ensures g[k - 1] <= g[k] <= g[k - 1] + n
    {
      assert g[k] == g[k - 1] + LineCount(cells, width, t, k, n);
    }
  }

  lemma GradesSorted(cells: seq<int>, width: int, height: int, t: IndexType)
    requires Shaped(cells, width, height)
    ensures var g := Grades(cells, width, height, t);
      forall j, k | 0 <= j <= k < |g| :: g[j] <= g[k]
  {
    var g := Grades(cells, width, height, t);
    forall j, k | 0 <= j <= k < |g|
      ensures g[j] <= g[k]
    {
      SectionsMonotone(cells, width, height, t, j + 1, k + 1, Limit(OppositeType(t), width, height));
    }
  }

  lemma GradesTotal(cells: seq<int>, width: int, height: int, t: IndexType)
    requires Shaped(cells, width, height)
    ensures var g := Grades(cells, width, height, t);
      |g| > 0 ==> g[|g| - 1] == Ones(cells)
  {
    if Limit(t, width, height) > 0 {
      RowSectionsCount(cells, width, height, height);
      assert cells[..height * width] == cells;
      if t == Column {
        ColumnSectionsCount(cells, width, height, height);
      }
    }
  }

  lemma {:induction false} SectionsMonotone(cells: seq<int>, width: int, height: int, t: IndexType, j: int, k: int, n: int)
    requires Shaped(cells, width, height)
    requires 0 <= j <= k <= Limit(t, width, height) && 0 <= n <= Limit(OppositeType(t), width, height)
    ensures Sections(cells, width, t, j, n) <= Sections(cells, width, t, k, n)
    decreases k
  {
    if j < k {
      SectionsMonotone(cells, width, height, t, j, k - 1, n);
    }
  }

  // ---------------------------------------------------------------------
  // The congruence test.

  /** Position p and its image both read without fault, and hold the first piece alike. */
  predicate Agrees(cells: seq<int>, width: int, height: int, i: Index, turns: int, p: Position)
  {
    && ReadOccupied(cells, width, p).Ok?
    && (TurnedReflected(p, i, turns, width, height).Some? ==>
          ReadOccupied(cells, width, TurnedReflected(p, i, turns, width, height).value) == ReadOccupied(cells, width, p))
  }

  /** Position p and its image, if present, have flat indices inside the buffer. */
  predicate ReadsInBounds(cells: seq<int>, width: int, height: int, i: Index, turns: int, p: Position)
  {
    && ReadOccupied(cells, width, p).Ok?
    && (TurnedReflected(p, i, turns, width, height).Some? ==>
          ReadOccupied(cells, width, TurnedReflected(p, i, turns, width, height).value).Ok?)
  }

  /** The congruence test over the positions ps, in order, stopping at the first mismatch or fault. */
  function CongruentFrom(cells: seq<int>, width: int, height: int, i: Index, turns: int, ps: seq<Position>): (r: Outcome<bool>)
    ensures ps == [] ==> r == Ok(true)
    ensures r.OutOfBounds? ==> exists p | p in ps ::
      || r.index == Flat(p, width)
      || (TurnedReflected(p, i, turns, width, height).Some? && r.index == Flat(TurnedReflected(p, i, turns, width, height).value, width))
    decreases |ps|
  {
    if ps == [] then Ok(true)
    else
      match ReadOccupied(cells, width, ps[0])
      case OutOfBounds(f) => OutOfBounds(f)
      case Ok(occupied) =>
        match TurnedReflected(ps[0], i, turns, width, height)
        case None => CongruentFrom(cells, width, height, i, turns, ps[1..])
        case Some(q) =>
          match ReadOccupied(cells, width, q)
          case OutOfBounds(f) => OutOfBounds(f)
          case Ok(reflectedOccupied) =>
            if occupied != reflectedOccupied then Ok(false)
            else CongruentFrom(cells, width, height, i, turns, ps[1..])
  }

  /** The congruence test of cut i with the given number of turns, over the scan of the first half. */
  function Congruent(cells: seq<int>, width: int, height: int, i: Index, turns: int): (r: Outcome<bool>)
    ensures i.value < 0 ==> r == Ok(true)
  {
    CongruentFrom(cells, width, height, i, turns, Scan(i, width, height))
  }

  /** The test passes exactly when every position agrees with its image. */
  lemma {:induction false} CongruentFromMeaning(cells: seq<int>, width: int, height: int, i: Index, turns: int, ps: seq<Position>)
    ensures CongruentFrom(cells, width, height, i, turns, ps) == Ok(true)
        <==> forall p | p in ps :: Agrees(cells, width, height, i, turns, p)
    decreases |ps|
  {
    if ps != [] {
      CongruentFromMeaning(cells, width, height, i, turns, ps[1..]);
      assert forall p | p in ps :: p == ps[0] || p in ps[1..];
      assert ps[0] in ps;
      assert forall p | p in ps[1..] :: p in ps;
    }
  }

  /** When every read is inside the buffer, the test yields a verdict rather than a fault. */
  lemma {:induction false} CongruentFromInBounds(cells: seq<int>, width: int, height: int, i: Index, turns: int, ps: seq<Position>)
    requires forall p | p in ps :: ReadsInBounds(cells, width, height, i, turns, p)
    ensures CongruentFrom(cells, width, height, i, turns, ps).Ok?
    decreases |ps|
  {
    if ps != [] {
      assert ps[0] in ps;
      CongruentFromInBounds(cells, width, height, i, turns, ps[1..]);
    }
  }

  /**
   * The plain mirror test (no turn) of a cut whose scanned half lies on the
   * board never faults: a row cut at most height - 1, or a column cut at
   * most width.
   */
  lemma MirrorTestInBounds(cells: seq<int>, width: int, height: int, i: Index)
    requires Shaped(cells, width, height)
    requires (i.axis == Row && i.value <= height - 1) || (i.axis == Column && i.value <= width)
    ensures Congruent(cells, width, height, i, 0).Ok?
  {
    var s := Scan(i, width, height);
    forall p | p in s
      ensures ReadsInBounds(cells, width, height, i, 0, p)
    {
      ScanCovers(i, width, height, p);
      ReadOfValid(cells, width, height, p);
      var image := TurnedReflected(p, i, 0, width, height);
      if image.Some? {
        ReadOfValid(cells, width, height, image.value);
      }
    }
    CongruentFromInBounds(cells, width, height, i, 0, s);
  }

  // ---------------------------------------------------------------------
  // The relabelling of the mirrored half.

  /** The cell buffer after relabelling, and the out-of-bounds flat index that stopped it, if any. */
  datatype Relabelled = Relabelled(cells: seq<int>, fault: Option<int>)

  /**
   * Walks ps in order; every present image that holds the first piece is
   * set to the second piece; an image whose flat index is outside the buffer
   * stops the walk with the writes made so far.
   */
  function RelabelFrom(cells: seq<int>, width: int, height: int, i: Index, turns: int, ps: seq<Position>): (r: Relabelled)
    ensures |r.cells| == |cells|
    decreases |ps|
  {
    if ps == [] then Relabelled(cells, None)
    else
      match TurnedReflected(ps[0], i, turns, width, height)
      case None => RelabelFrom(cells, width, height, i, turns, ps[1..])
      case Some(q) =>
        match ReadOccupied(cells, width, q)
        case OutOfBounds(f) => Relabelled(cells, Some(f))
        case Ok(occupied) =>
          RelabelFrom(if occupied then cells[Flat(q, width) := SecondPiece()] else cells, width, height, i, turns, ps[1..])
  }

  /** The relabelling of cut i with the given number of turns, over the scan of the first half. */
  function Relabel(cells: seq<int>, width: int, height: int, i: Index, turns: int): (r: Relabelled)
    ensures |r.cells| == |cells|
    ensures i.value < 0 ==> r == Relabelled(cells, None)
  {
    RelabelFrom(cells, width, height, i, turns, Scan(i, width, height))
  }

  /** The flat indices of the present images of the positions ps. */
  function ImageFlats(width: int, height: int, i: Index, turns: int, ps: seq<Position>): (r: set<int>)
  {
    set k | 0 <= k < |ps| && TurnedReflected(ps[k], i, turns, width, height).Some?
          :: Flat(TurnedReflected(ps[k], i, turns, width, height).value, width)
  }

  lemma ImageFlatsCons(width: int, height: int, i: Index, turns: int, ps: seq<Position>)
    requires ps != []
    ensures var image := TurnedReflected(ps[0], i, turns, width, height);
      ImageFlats(width, height, i, turns, ps)
      == (if image.Some? then {Flat(image.value, width)} else {}) + ImageFlats(width, height, i, turns, ps[1..])
  {
    var image := TurnedReflected(ps[0], i, turns, width, height);
    var rest := ps[1..];
    forall f | f in ImageFlats(width, height, i, turns, rest)
      ensures f in ImageFlats(width, height, i, turns, ps)
    {
      var k :| 0 <= k < |rest| && TurnedReflected(rest[k], i, turns, width, height).Some?
             && f == Flat(TurnedReflected(rest[k], i, turns, width, height).value, width);
      assert ps[k + 1] == rest[k];
    }
    forall f | f in ImageFlats(width, height, i, turns, ps)
      ensures f in (if image.Some? then {Flat(image.value, width)} else {}) + ImageFlats(width, height, i, turns, rest)
    {
      var k :| 0 <= k < |ps| && TurnedReflected(ps[k], i, turns, width, height).Some?
             && f == Flat(TurnedReflected(ps[k], i, turns, width, height).value, width);
      if k > 0 {
        assert rest[k - 1] == ps[k];
      }
    }
  }

  /**
   * Whether or not it faults, relabelling only turns first-piece cells at
   * images of the walked positions into second-piece cells; every other
   * cell keeps its value.
   */
  lemma {:induction false} RelabelOnlyPromotes(cells: seq<int>, width: int, height: int, i: Index, turns: int, ps: seq<Position>)
    ensures var r := RelabelFrom(cells, width, height, i, turns, ps);
      forall f | 0 <= f < |cells| ::
        r.cells[f] == cells[f]
        || (cells[f] == FirstPiece() && r.cells[f] == SecondPiece() && f in ImageFlats(width, height, i, turns, ps))
    decreases |ps|
  {
    if ps != [] {
      ImageFlatsCons(width, height, i, turns, ps);
      var image := TurnedReflected(ps[0], i, turns, width, height);
      if image.Some? {
        var q := image.value;
        if ReadOccupied(cells, width, q).Ok? {
          var next := if ReadOccupied(cells, width, q).value then cells[Flat(q, width) := SecondPiece()] else cells;
          RelabelOnlyPromotes(next, width, height, i, turns, ps[1..]);
        }
      } else {
        RelabelOnlyPromotes(cells, width, height, i, turns, ps[1..]);
      }
    }
  }

  /**
   * A relabelling that runs to the end sets exactly the first-piece cells
   * at images of the walked positions to the second piece.
   */
  lemma {:induction false} RelabelExact(cells: seq<int>, width: int, height: int, i: Index, turns: int, ps: seq<Position>)
    requires RelabelFrom(cells, width, height, i, turns, ps).fault == None
    ensures var r := RelabelFrom(cells, width, height, i, turns, ps);
      forall f | 0 <= f < |cells| ::
        r.cells[f] == if f in ImageFlats(width, height, i, turns, ps) && cells[f] == FirstPiece() then SecondPiece() else cells[f]
    decreases |ps|
  {
    if ps != [] {
      ImageFlatsCons(width, height, i, turns, ps);
      var image := TurnedReflected(ps[0], i, turns, width, height);
      if image.Some? {
        var q := image.value;
        var next := if ReadOccupied(cells, width, q).value then cells[Flat(q, width) := SecondPiece()] else cells;
        RelabelExact(next, width, height, i, turns, ps[1..]);
      } else {
        RelabelExact(cells, width, height, i, turns, ps[1..]);
      }
    }
  }

  /** Relabelling runs to the end when every present image of a walked position lies inside the buffer. */
  lemma {:induction false} RelabelFromInBounds(cells: seq<int>, width: int, height: int, i: Index, turns: int, ps: seq<Position>)
    requires forall p | p in ps :: TurnedReflected(p, i, turns, width, height).Some? ==>
               0 <= Flat(TurnedReflected(p, i, turns, width, height).value, width) < |cells|
    ensures RelabelFrom(cells, width, height, i, turns, ps).fault == None
    decreases |ps|
  {
    if ps != [] {
      assert ps[0] in ps;
      assert forall p | p in ps[1..] :: p in ps;
      var image := TurnedReflected(ps[0], i, turns, width, height);
      if image.Some? {
        var q := image.value;
        var next := if ReadOccupied(cells, width, q).value then cells[Flat(q, width) := SecondPiece()] else cells;
        RelabelFromInBounds(next, width, height, i, turns, ps[1..]);
      } else {
        RelabelFromInBounds(cells, width, height, i, turns, ps[1..]);
      }
    }
  }

  /** Relabelling with the plain mirror (no turn) never faults: every present image is a position on the board. */
  lemma RelabelMirrorInBounds(cells: seq<int>, width: int, height: int, i: Index)
    requires Shaped(cells, width, height)
    ensures Relabel(cells, width, height, i, 0).fault == None
  {
    var s := Scan(i, width, height);
    forall p | p in s
      ensures TurnedReflected(p, i, 0, width, height).Some? ==>
                0 <= Flat(TurnedReflected(p, i, 0, width, height).value, width) < |cells|
    {
      var image := TurnedReflected(p, i, 0, width, height);
      if image.Some? {
        FlatOfValid(image.value, width, height);
      }
    }
    RelabelFromInBounds(cells, width, height, i, 0, s);
  }

  /** Whether relabelling faults, and where, depends only on the geometry, not on the cell values. */
  lemma {:induction false} RelabelFaultIsGeometric(cells: seq<int>, other: seq<int>, width: int, height: int, i: Index, turns: int, ps: seq<Position>)
    requires |cells| == |other|
    ensures RelabelFrom(cells, width, height, i, turns, ps).fault == RelabelFrom(other, width, height, i, turns, ps).fault
    decreases |ps|
  {
    if ps != [] {
      var image := TurnedReflected(ps[0], i, turns, width, height);
      if image.Some? {
        var q := image.value;
        if ReadOccupied(cells, width, q).Ok? {
          var next := if ReadOccupied(cells, width, q).value then cells[Flat(q, width) := SecondPiece()] else cells;
          var next' := if ReadOccupied(other, width, q).value then other[Flat(q, width) := SecondPiece()] else other;
          RelabelFaultIsGeometric(next, next', width, height, i, turns, ps[1..]);
        }
      } else {
        RelabelFaultIsGeometric(cells, other, width, height, i, turns, ps[1..]);
      }
    }
  }

  /**
   * Walking the same positions again over the result changes nothing,
   * whether or not the first walk faulted: every image the first walk
   * passed no longer holds the first piece, and a fault recurs at the same
   * image.
   */
  lemma {:induction false} RelabelFromIdempotent(cells: seq<int>, width: int, height: int, i: Index, turns: int, ps: seq<Position>)
    ensures var r := RelabelFrom(cells, width, height, i, turns, ps);
      RelabelFrom(r.cells, width, height, i, turns, ps) == r
    decreases |ps|
  {
    if ps != [] {
      var r := RelabelFrom(cells, width, height, i, turns, ps);
      var image := TurnedReflected(ps[0], i, turns, width, height);
      if image.None? {
        RelabelFromIdempotent(cells, width, height, i, turns, ps[1..]);
      } else {
        var q := image.value;
        if ReadOccupied(cells, width, q).Ok? {
          var f := Flat(q, width);
          var next := if ReadOccupied(cells, width, q).value then cells[f := SecondPiece()] else cells;
          assert r == RelabelFrom(next, width, height, i, turns, ps[1..]);
          RelabelOnlyPromotes(next, width, height, i, turns, ps[1..]);
          assert r.cells[f] != FirstPiece();
          assert ReadOccupied(r.cells, width, q) == Ok(false);
          RelabelFromIdempotent(next, width, height, i, turns, ps[1..]);
        }
      }
    }
  }

  /** Relabelling a second time with the same cut and turns changes nothing, even after a fault. */
  lemma RelabelIdempotent(cells: seq<int>, width: int, height: int, i: Index, turns: int)
    ensures var r := Relabel(cells, width, height, i, turns);
      Relabel(r.cells, width, height, i, turns) == r
  {
    RelabelFromIdempotent(cells, width, height, i, turns, Scan(i, width, height));
  }

  /** How many cells are not empty. */
  function NonEmpty(cells: seq<int>): (r: nat)
  {
    if cells == [] then 0
    else NonEmpty(cells[..|cells| - 1]) + if cells[|cells| - 1] != EmptyBlock() then 1 else 0
  }

  /** Turning first-piece cells into second-piece cells keeps the number of non-empty cells. */
  lemma {:induction false} PromotionKeepsNonEmpty(before: seq<int>, after: seq<int>)
    requires |before| == |after|
    requires forall f | 0 <= f < |before| :: after[f] == before[f] || (before[f] == FirstPiece() && after[f] == SecondPiece())
    ensures NonEmpty(after) == NonEmpty(before)
  {
    if before != [] {
      var n := |before| - 1;
      PromotionKeepsNonEmpty(before[..n], after[..n]);
    }
  }

  /**
   * Relabelling keeps empty cells empty, never produces a first piece where
   * there was none, and keeps the number of non-empty cells.
   */
  lemma RelabelConserves(cells: seq<int>, width: int, height: int, i: Index, turns: int)
    ensures var r := Relabel(cells, width, height, i, turns);
      && NonEmpty(r.cells) == NonEmpty(cells)
      && (forall f | 0 <= f < |cells| :: cells[f] == EmptyBlock() ==> r.cells[f] == EmptyBlock())
      && (forall f | 0 <= f < |cells| :: r.cells[f] == FirstPiece() ==> cells[f] == FirstPiece())
  {
    var s := Scan(i, width, height);
    RelabelOnlyPromotes(cells, width, height, i, turns, s);
    PromotionKeepsNonEmpty(cells, RelabelFrom(cells, width, height, i, turns, s).cells);
  }

  /**
   * A negative bisection index, advanced to the next cross-section, is a cut
   * at or before cross-section 0. No scanned position then has a mirror
   * image on the board, whatever the number of turns: the congruence test
   * passes without comparing anything, and relabelling changes nothing.
   */
  lemma NegativeSplitIsVacuous(cells: seq<int>, width: int, height: int, t: IndexType, r: int, turns: int)
    requires Shaped(cells, width, height) && Limit(t, width, height) > 0 && r < 0
    ensures Congruent(cells, width, height, Next(Index(r, t)), turns) == Ok(true)
    ensures Relabel(cells, width, height, Next(Index(r, t)), turns) == Relabelled(cells, None)
  {
    var i := Next(Index(r, t));
    var s := Scan(i, width, height);
    forall p | p in s
      ensures ReadOccupied(cells, width, p).Ok? && TurnedReflected(p, i, turns, width, height).None?
    {
      ScanCovers(i, width, height, p);
      ReadOfValid(cells, width, height, p);
    }
    CongruentFromMeaning(cells, width, height, i, turns, s);
    RelabelFromInBounds(cells, width, height, i, turns, s);
    RelabelExact(cells, width, height, i, turns, s);
    assert ImageFlats(width, height, i, turns, s) == {};
    var out := Relabel(cells, width, height, i, turns);
    assert out.cells == cells;
  }
}
