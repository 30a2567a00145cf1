/**
 * The rewrite of the solver in maze.cc: each grid cell is a record holding
 * its original glyph next to a direction and a distance (declared for a
 * breadth-first search that the file does not implement), the same border
 * walk and opening locator as main.cc, and an `Explore` whose search is
 * compiled out, so that it never finds a route.
 */
module CellMaze {
  import opened Border
  import opened Grids
  import Openings

  /** The direction back to a cell's predecessor. */
  datatype Direction = None | North | South | East | West

  /** A grid cell: direction to its predecessor, original glyph, distance from the start. */
  datatype Cell = Cell(dir: Direction, orig: char, dist: int)

  /** The default constructor: no direction, NUL glyph, distance -1 ("not reached"). */
  function DefaultCell(): (c: Cell)
    ensures c.dir == None && c.orig == '\0' && c.dist == -1
  {
    Cell(None, '\0', -1)
  }

  /** The constructor from a glyph: like the default cell but holding `ch`. */
  function CellOf(ch: char): (c: Cell)
    ensures c.dir == None && c.orig == ch && c.dist == -1
  {
    Cell(None, ch, -1)
  }

  /**
   * The two constructors agree on everything but the glyph: a cell built
   * from a glyph is the default cell with that glyph stored, and the
   * default cell is the one built from NUL.
   */
  lemma ConstructorsAgree(ch: char)
    ensures CellOf(ch) == DefaultCell().(orig := ch)
    ensures DefaultCell() == CellOf('\0')
    ensures CellOf(ch).orig == ch && (CellOf(ch) == DefaultCell() <==> ch == '\0')
  {
  }

  /** The glyphs of a row of cells. */
  function Glyphs(cells: seq<Cell>): (s: seq<char>)
    ensures |s| == |cells| && forall i :: 0 <= i < |cells| ==> s[i] == cells[i].orig
  {
    seq(|cells|, i requires 0 <= i < |cells| => cells[i].orig)
  }

  class Maze {
    const nrows: int
    const ncols: int
    const cells: seq<Cell>
    var endCell: Pos

    predicate Valid() {
      Shape(nrows, ncols) && |cells| == nrows * ncols
    }

    /** The maze as a grid of glyphs, for the specifications. */
    function View(): (g: Grid)
      ensures Valid() ==> g.Valid()
    {
      Grid(nrows, ncols, Glyphs(cells))
    }

    /** A maze as the loader leaves it: dimensions and cells set, end_ value-initialised. */
    constructor (nrows: int, ncols: int, cells: seq<Cell>)
      requires Shape(nrows, ncols) && |cells| == nrows * ncols
      ensures Valid() && this.nrows == nrows && this.ncols == ncols && this.cells == cells
      ensures endCell == (0, 0)
    {
      this.nrows := nrows;
      this.ncols := ncols;
      this.cells := cells;
      endCell := (0, 0);
    }

    predicate InBounds(row: int, col: int)
      ensures InBounds(row, col) <==> 0 <= row < nrows && 0 <= col < ncols
      ensures Valid() && InBounds(row, col) ==> 0 <= row * ncols + col < |cells|
    {
      var ok := row >= 0 && col >= 0 && row < nrows && col < ncols;
      if ok then OffsetInRange(nrows, ncols, (row, col)); ok else ok
    }

    /** The original glyph of the cell at row-major offset row*ncols + col (the source does not check bounds). */
    function At(row: int, col: int): (ch: char)
      requires Valid() && InBounds(row, col)
      ensures ch == Glyph(View(), (row, col))
    {
      cells[row * ncols + col].orig
    }

    predicate Empty(row: int, col: int)
      requires Valid() && InBounds(row, col)
      ensures Empty(row, col) <==> IsOpen(View(), (row, col))
    {
      IsSpace(At(row, col))
    }

    /** One step of the clockwise border walk; the cursor is passed in and returned. */
    method TravelBorder(row: int, col: int) returns (r: int, c: int)
      requires Valid()
      ensures OnBorder(nrows, ncols, (row, col)) ==> (r, c) == Successor(nrows, ncols, (row, col))
      ensures Border.InBounds(nrows, ncols, (row, col)) && !OnBorder(nrows, ncols, (row, col)) ==> (r, c) == (-1, -1)
    {
      if OnBorder(nrows, ncols, (row, col)) {
        SuccessorIsClockwise(nrows, ncols, (row, col));
      }
      r, c := row, col;
      if row == 0 {
        if col < ncols - 1 {
          c := col + 1;  // right along the top row
        } else {
          r := row + 1;  // from the top row onto the right edge
        }
      } else if row == nrows - 1 {
        if col != 0 {
          c := col - 1;  // left along the bottom row
        } else {
          r := row - 1;  // from the bottom row onto the left edge
        }
      } else if col == ncols - 1 {
        r := row + 1;    // down the right edge
      } else if col == 0 {
        r := row - 1;    // up the left edge
      } else {
        r, c := -1, -1;
      }
    }

    /**
     * Locates the openings exactly as the solver of main.cc does, then calls
     * the stub search, which reports failure; the status is 0 whenever both
     * openings were found. The precondition rules out the all-open border,
     * on which the run-consuming loop never ends.
     */
    method Solve() returns (status: int, solved: bool)
      requires Valid() && HasBorderWall(View())
      modifies this`endCell
      ensures var loc := Openings.Locate(View());
        && !loc.Endless?
        && (loc.NoStart? ==> status == 1 && endCell == old(endCell))
        && (loc.NoEnd? ==> status == 1 && endCell == loc.start)
        && (loc.Found? ==> status == 0 && endCell == loc.end)
        && !solved
    {
      var borderSize := ncols * 2 + nrows * 2 - 4;
      var found, row, col, s := FindStart(borderSize);
      if !found {
        return 1, false;
      }
      var start := (row, col);
      ghost var w;
      row, col, w := SkipOpenRun(row, col, s);
      found := FindEnd(borderSize, row, col, start, w);
      if !found {
        return 1, false;
      }
      var queue: seq<Cell> := [];
      solved := Explore(queue, start.0, start.1);
      status := 0;
    }

    /**
     * The start loop: walks at most borderSize steps from (0, 0) and stops
     * on the first open cell, whose perimeter index is `s`.
     */
    method FindStart(borderSize: int) returns (found: bool, row: int, col: int, ghost s: int)
      requires Valid() && borderSize == BorderSize(nrows, ncols)
      ensures var first := Openings.Search(View(), Openings.Opening, Next(nrows, ncols, 0), borderSize);
        && (found <==> first.Some?)
        && (found ==> (row, col) == Perimeter(nrows, ncols, first.value) && IsOpen(View(), (row, col)))
      ensures found ==> s == Openings.Search(View(), Openings.Opening, Next(nrows, ncols, 0), borderSize).value
    {
      ghost var g := View();
      ghost var first := Openings.Search(g, Openings.Opening, Next(nrows, ncols, 0), borderSize);
      row, col := 0, 0;
      found := false;
      s := 0;
      var i := 0;
      while i < borderSize
        invariant 0 <= i <= borderSize && 0 <= s < borderSize
        invariant (row, col) == Perimeter(nrows, ncols, s)
        invariant first == Openings.Search(g, Openings.Opening, Next(nrows, ncols, s), borderSize - i)
      {
        SuccessorOfPerimeter(nrows, ncols, s);
        row, col := TravelBorder(row, col);
        s := Next(nrows, ncols, s);
        if Empty(row, col) {
          found := true;
          return;
        }
        i := i + 1;
      }
    }

    /**
     * The loop that finishes consuming the open run the start belongs to:
     * from the cell of index s it moves on until the cursor is on a wall,
     * the first wall at or after s, whose index is `w`.
     */
    method SkipOpenRun(row: int, col: int, ghost s: int) returns (r: int, c: int, ghost w: int)
      requires Valid() && HasBorderWall(View())
      requires 0 <= s < BorderSize(nrows, ncols) && (row, col) == Perimeter(nrows, ncols, s)
      ensures var wall := Openings.Search(View(), Openings.Blocked, s, BorderSize(nrows, ncols));
        wall.Some? && (r, c) == Perimeter(nrows, ncols, wall.value)
      ensures Openings.Search(View(), Openings.Blocked, s, BorderSize(nrows, ncols)) == Openings.Some(w)
    {
      ghost var g := View();
      ghost var n := BorderSize(nrows, ncols);
      ghost var first := Openings.Search(g, Openings.Blocked, s, n);
      ghost var p :| OnBorder(nrows, ncols, p) && !IsOpen(g, p);
      Openings.SearchSpec(g, Openings.Blocked, s, n);
      assert Openings.Wanted(g, Openings.Blocked, Ahead(nrows, ncols, s, Distance(nrows, ncols, s, Index(nrows, ncols, p))));
      r, c := row, col;
      w := s;
      ghost var k := 0;
      while Empty(r, c)
        invariant 0 <= k < n && 0 <= w < n
        invariant (r, c) == Perimeter(nrows, ncols, w)
        invariant first.Some? && first == Openings.Search(g, Openings.Blocked, w, n - k)
        decreases n - k
      {
        SuccessorOfPerimeter(nrows, ncols, w);
        r, c := TravelBorder(r, c);
        w := Next(nrows, ncols, w);
        k := k + 1;
      }
    }

    /**
     * The end loop: walks at most borderSize steps on from the cell of
     * index w and sets the end cell to every open cell it meets, stopping
     * at the first one other than the start.
     */
    method FindEnd(borderSize: int, row: int, col: int, start: Pos, ghost w: int) returns (found: bool)
      requires Valid() && borderSize == BorderSize(nrows, ncols)
      requires 0 <= w < borderSize && (row, col) == Perimeter(nrows, ncols, w)
      requires OnBorder(nrows, ncols, start) && IsOpen(View(), start)
      modifies this`endCell
      ensures var other := Openings.Search(View(), Openings.OtherOpening(start), Next(nrows, ncols, w), borderSize);
        && (found <==> other.Some?)
        && (found ==> endCell == Perimeter(nrows, ncols, other.value))
        && (!found ==> endCell == start)
    {
      ghost var g := View();
      ghost var want := Openings.OtherOpening(start);
      ghost var other := Openings.Search(g, want, Next(nrows, ncols, w), borderSize);
      Openings.SearchCoversLap(g, Next(nrows, ncols, w), start);
      ghost var j := w;
      ghost var seenStart := false;
      var r, c := row, col;
      found := false;
      var i := 0;
      while i < borderSize
        invariant 0 <= i <= borderSize && 0 <= j < borderSize
        invariant (r, c) == Perimeter(nrows, ncols, j)
        invariant other == Openings.Search(g, want, Next(nrows, ncols, j), borderSize - i)
        invariant seenStart ==> endCell == start
        invariant !seenStart ==> Openings.Search(g, Openings.Spot(start), Next(nrows, ncols, j), borderSize - i).Some?
      {
        SuccessorOfPerimeter(nrows, ncols, j);
        r, c := TravelBorder(r, c);
        j := Next(nrows, ncols, j);
        Openings.SearchStep(g, want, j, borderSize - i);
        Openings.SearchStep(g, Openings.Spot(start), j, borderSize - i);
        if Empty(r, c) {
          endCell := (r, c);
          if endCell != start {
            found := true;
            return;
          }
          seenStart := true;
        }
        assert !Openings.Wanted(g, want, j);
        i := i + 1;
      }
    }

    /**
     * The search of maze.cc with its body compiled out: it checks the cell
     * and reports failure whatever the cell, leaving the queue it is given
     * and the cells untouched.
     */
    method Explore(queue: seq<Cell>, row: int, col: int) returns (found: bool)
      requires Valid()
      ensures !found
    {
      if !InBounds(row, col) {
        return false;
      }
      if !Empty(row, col) {
        return false;
      }
      return false;
    }
  }
}
