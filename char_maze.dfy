/**
 * The solver of main.cc: a maze held as a row-major character buffer, the
 * border walk that finds the two openings, and a depth-first search that
 * keeps the current path on a stack.
 */
module CharMaze {
  import opened Border
  import opened Grids
  import Openings

  /** The stack of cells on the current search path. */
  class Path {
    var points: seq<Pos>

    constructor ()
      ensures points == []
    {
      points := [];
    }

    method Push(row: int, col: int)
      modifies this
      ensures points == old(points) + [(row, col)]
    {
      points := points + [(row, col)];
    }

    /** Popping an empty vector is undefined behaviour in the source, hence the precondition. */
    method Pop()
      requires points != []
      modifies this
      ensures points == old(points)[..|old(points)| - 1]
    {
      points := points[..|points| - 1];
    }

    function Size(): (n: nat)
      reads this
      ensures n == |points|
    {
      |points|
    }

    method Contains(row: int, col: int) returns (b: bool)
      ensures b <==> (row, col) in points
    {
      var i := 0;
      while i < |points|
        invariant 0 <= i <= |points|
        invariant forall j :: 0 <= j < i ==> points[j] != (row, col)
      {
        if points[i].0 == row && points[i].1 == col {
          return true;
        }
        i := i + 1;
      }
      return false;
    }
  }

  /** What `Explore` relies on: a Pop right after a Push gives back the old stack. */
  method PushThenPopRestores(path: Path, row: int, col: int)
    modifies path
    ensures path.points == old(path.points)
  {
    path.Push(row, col);
    path.Pop();
  }

  class Maze {
    const nrows: int
    const ncols: int
    const data: seq<char>
    var endCell: Pos

    predicate Valid()
    {
      Shape(nrows, ncols) && |data| == nrows * ncols
    }

    /** The maze as a value, for the specifications. */
    function View(): (g: Grid)
      ensures Valid() ==> g.Valid()
    {
      Grid(nrows, ncols, data)
    }

    /** A maze as the loader leaves it: dimensions and buffer set, end_ value-initialised. */
    constructor (nrows: int, ncols: int, data: seq<char>)
      requires Shape(nrows, ncols) && |data| == nrows * ncols
      ensures Valid() && this.nrows == nrows && this.ncols == ncols && this.data == data
      ensures endCell == (0, 0)
    {
      this.nrows := nrows;
      this.ncols := ncols;
      this.data := data;
      endCell := (0, 0);
    }

    predicate InBounds(row: int, col: int)
      ensures InBounds(row, col) <==> 0 <= row < nrows && 0 <= col < ncols
      ensures Valid() && InBounds(row, col) ==> 0 <= row * ncols + col < |data|
    {
      var ok := row >= 0 && col >= 0 && row < nrows && col < ncols;
      if ok then OffsetInRange(nrows, ncols, (row, col)); ok else ok
    }

    /** The glyph at row-major offset row*ncols + col (the source does not check bounds). */
    function Cell(row: int, col: int): (ch: char)
      requires Valid() && InBounds(row, col)
      ensures ch == Glyph(View(), (row, col))
    {
      data[row * ncols + col]
    }

    predicate Empty(row: int, col: int)
      requires Valid() && InBounds(row, col)
      ensures Empty(row, col) <==> IsOpen(View(), (row, col))
    {
      IsSpace(Cell(row, col))
    }

    /** One step of the clockwise border walk; the cursor is passed in and returned. */
    method TravelBorder(row: int, col: int) returns (r: int, c: int)
      requires Valid()
      ensures OnBorder(nrows, ncols, (row, col)) ==> (r, c) == Successor(nrows, ncols, (row, col))
      ensures Border.InBounds(nrows, ncols, (row, col)) && !OnBorder(nrows, ncols, (row, col)) ==> (r, c) == (-1, -1)
    {
      if OnBorder(nrows, ncols, (row, col)) {
        SuccessorIsClockwise(nrows, ncols, (row, col));
      }
      r, c := row, col;
      if row == 0 {
        if col < ncols - 1 {
          c := col + 1;  // right along the top row
        } else {
          r := row + 1;  // from the top row onto the right edge
        }
      } else if row == nrows - 1 {
        if col != 0 {
          c := col - 1;  // left along the bottom row
        } else {
          r := row - 1;  // from the bottom row onto the left edge
        }
      } else if col == ncols - 1 {
        r := row + 1;    // down the right edge
      } else if col == 0 {
        r := row - 1;    // up the left edge
      } else {
        r, c := -1, -1;
      }
    }

    /**
     * Locates the openings, then searches for a route between them. `solved`
     * and `route` are what the source prints after a search ("Success!" and
     * the path); a search is made only when both openings were found.
     * The precondition rules out the all-open border, on which the source's
     * run-consuming loop never ends. The three border loops of the source
     * are the methods FindStart, SkipOpenRun and FindEnd, which pass the
     * cursor (row, col) on from one loop to the next.
     */
    method Solve() returns (status: int, solved: bool, route: seq<Pos>)
      requires Valid() && HasBorderWall(View())
      modifies this`endCell
      ensures var loc := Openings.Locate(View());
        && !loc.Endless?
        && (loc.NoStart? ==> status == 1 && endCell == old(endCell) && !solved && route == [])
        && (loc.NoEnd? ==> status == 1 && endCell == loc.start && !solved && route == [])
        && (loc.Found? ==> status == 0 && endCell == loc.end)
        && (loc.Found? ==> (solved <==> exists r :: IsRoute(View(), r, loc.start, loc.end)))
        && (loc.Found? && solved ==> IsRoute(View(), route, loc.start, loc.end))
        && (!solved ==> route == [])
    {
      ghost var g := View();
      var borderSize := ncols * 2 + nrows * 2 - 4;
      var found, row, col, s := FindStart(borderSize);
      if !found {
        return 1, false, [];
      }
      var start := (row, col);
      ghost var w;
      row, col, w := SkipOpenRun(row, col, s);
      found := FindEnd(borderSize, row, col, start, w);
      if !found {
        return 1, false, [];
      }
      var path := new Path();
      solved := Explore(path, start.0, start.1);
      RouteFromEmptyPath(g, path.points, start, endCell);
      route := path.points;
      status := 0;
    }

    /**
     * The start loop: walks at most borderSize steps from (0, 0) and stops
     * on the first open cell, whose perimeter index is `s`.
     */
    method FindStart(borderSize: int) returns (found: bool, row: int, col: int, ghost s: int)
      requires Valid() && borderSize == BorderSize(nrows, ncols)
      ensures var first := Openings.Search(View(), Openings.Opening, Next(nrows, ncols, 0), borderSize);
        && (found <==> first.Some?)
        && (found ==> (row, col) == Perimeter(nrows, ncols, first.value) && IsOpen(View(), (row, col)))
      ensures found ==> s == Openings.Search(View(), Openings.Opening, Next(nrows, ncols, 0), borderSize).value
    {
      ghost var g := View();
      ghost var first := Openings.Search(g, Openings.Opening, Next(nrows, ncols, 0), borderSize);
      row, col := 0, 0;
      found := false;
      s := 0;
      var i := 0;
      while i < borderSize
        invariant 0 <= i <= borderSize && 0 <= s < borderSize
        invariant (row, col) == Perimeter(nrows, ncols, s)
        invariant first == Openings.Search(g, Openings.Opening, Next(nrows, ncols, s), borderSize - i)
      {
        SuccessorOfPerimeter(nrows, ncols, s);
        row, col := TravelBorder(row, col);
        s := Next(nrows, ncols, s);
        if Empty(row, col) {
          found := true;
          return;
        }
        i := i + 1;
      }
    }

    /**
     * The loop that finishes consuming the open run the start belongs to:
     * from the cell of index s it moves on until the cursor is on a wall,
     * the first wall at or after s, whose index is `w`. It ends because the
     * border has a wall.
     */
    method SkipOpenRun(row: int, col: int, ghost s: int) returns (r: int, c: int, ghost w: int)
      requires Valid() && HasBorderWall(View())
      requires 0 <= s < BorderSize(nrows, ncols) && (row, col) == Perimeter(nrows, ncols, s)
      ensures var wall := Openings.Search(View(), Openings.Blocked, s, BorderSize(nrows, ncols));
        wall.Some? && (r, c) == Perimeter(nrows, ncols, wall.value)
      ensures Openings.Search(View(), Openings.Blocked, s, BorderSize(nrows, ncols)) == Openings.Some(w)
    {
      ghost var g := View();
      ghost var n := BorderSize(nrows, ncols);
      ghost var first := Openings.Search(g, Openings.Blocked, s, n);
      ghost var p :| OnBorder(nrows, ncols, p) && !IsOpen(g, p);
      Openings.SearchSpec(g, Openings.Blocked, s, n);
      assert Openings.Wanted(g, Openings.Blocked, Ahead(nrows, ncols, s, Distance(nrows, ncols, s, Index(nrows, ncols, p))));
      r, c := row, col;
      w := s;
      ghost var k := 0;
      while Empty(r, c)
        invariant 0 <= k < n && 0 <= w < n
        invariant (r, c) == Perimeter(nrows, ncols, w)
        invariant first.Some? && first == Openings.Search(g, Openings.Blocked, w, n - k)
        decreases n - k
      {
        SuccessorOfPerimeter(nrows, ncols, w);
        r, c := TravelBorder(r, c);
        w := Next(nrows, ncols, w);
        k := k + 1;
      }
    }

    /**
     * The end loop: walks at most borderSize steps on from the cell of
     * index w and sets the end cell to every open cell it meets, stopping
     * at the first one other than the start. When there is none, the start
     * was the last open cell met, so the end cell is left equal to the start.
     */
    method FindEnd(borderSize: int, row: int, col: int, start: Pos, ghost w: int) returns (found: bool)
      requires Valid() && borderSize == BorderSize(nrows, ncols)
      requires 0 <= w < borderSize && (row, col) == Perimeter(nrows, ncols, w)
      requires OnBorder(nrows, ncols, start) && IsOpen(View(), start)
      modifies this`endCell
      ensures var other := Openings.Search(View(), Openings.OtherOpening(start), Next(nrows, ncols, w), borderSize);
        && (found <==> other.Some?)
        && (found ==> endCell == Perimeter(nrows, ncols, other.value))
        && (!found ==> endCell == start)
    {
      ghost var g := View();
      ghost var want := Openings.OtherOpening(start);
      ghost var other := Openings.Search(g, want, Next(nrows, ncols, w), borderSize);
      Openings.SearchCoversLap(g, Next(nrows, ncols, w), start);
      ghost var j := w;
      ghost var seenStart := false;
      var r, c := row, col;
      found := false;
      var i := 0;
      while i < borderSize
        invariant 0 <= i <= borderSize && 0 <= j < borderSize
        invariant (r, c) == Perimeter(nrows, ncols, j)
        invariant other == Openings.Search(g, want, Next(nrows, ncols, j), borderSize - i)
        invariant seenStart ==> endCell == start
        invariant !seenStart ==> Openings.Search(g, Openings.Spot(start), Next(nrows, ncols, j), borderSize - i).Some?
      {
        SuccessorOfPerimeter(nrows, ncols, j);
        r, c := TravelBorder(r, c);
        j := Next(nrows, ncols, j);
        Openings.SearchStep(g, want, j, borderSize - i);
        Openings.SearchStep(g, Openings.Spot(start), j, borderSize - i);
        if Empty(r, c) {
          endCell := (r, c);
          if endCell != start {
            found := true;
            return;
          }
          seenStart := true;
        }
        assert !Openings.Wanted(g, want, j);
        i := i + 1;
      }
    }

    /** The cells not yet on the path: shrinks with every push, so `Explore` terminates. */
    ghost function Unvisited(points: seq<Pos>): set<Pos>
    {
      (set r, c | 0 <= r < nrows && 0 <= c < ncols :: (r, c)) - (set q | q in points)
    }

    /**
     * Depth-first search from (row, col) to the end cell, trying north,
     * south, west and east in that order. The path is extended on success
     * and left as it was on failure; the search fails only when no route
     * from (row, col) to the end avoids the cells already on the path.
     */
    method Explore(path: Path, row: int, col: int) returns (found: bool)
      requires Valid()
      modifies path
      decreases Unvisited(path.points)
      ensures !found ==> path.points == old(path.points) && NoRoute(View(), (row, col), endCell, old(path.points))
      ensures found ==> RouteOnTop(View(), old(path.points), path.points, (row, col), endCell)
    {
      ghost var g := View();
      if !InBounds(row, col) {
        return false;
      }
      if !Empty(row, col) {
        return false;
      }
      var onPath := path.Contains(row, col);
      if onPath {
        return false;
      }
      ghost var before := path.points;
      ghost var x := (row, col);
      path.Push(row, col);
      if endCell.0 == row && endCell.1 == col {
        RouteOfOne(g, before, x, path.points);
        return true;
      }
      ghost var pushed := path.points;
      assert x in Unvisited(before) && x !in Unvisited(pushed);

      // The four attempts of the source's short-circuit `||`, in its order.
      ghost var n := (row - 1, col);
      found := Explore(path, row - 1, col);
      if !found {
        n := (row + 1, col);
        found := Explore(path, row + 1, col);
      }
      if !found {
        n := (row, col - 1);
        found := Explore(path, row, col - 1);
      }
      if !found {
        n := (row, col + 1);
        found := Explore(path, row, col + 1);
      }
      if found {
        ExtendAfterStep(g, before, x, pushed, n, endCell, path.points);
        return;
      }

      path.Pop();
      NoRouteOnward(g, x, endCell, before);
    }
  }

  /**
   * The path after a successful search from a neighbour n of x, pushed on
   * top of `before + [x]`, is a route from x on top of `before`.
   */
  lemma ExtendAfterStep(g: Grid, before: seq<Pos>, x: Pos, pushed: seq<Pos>, n: Pos, b: Pos, now: seq<Pos>)
    requires g.Valid() && Border.InBounds(g.nrows, g.ncols, x) && IsOpen(g, x)
    requires x !in before && Adjacent(x, n) && pushed == before + [x]
    requires RouteOnTop(g, pushed, now, n, b)
    ensures RouteOnTop(g, before, now, x, b)
  {
    assert now[|before|..] == [x] + now[|before| + 1..];
    ExtendRoute(g, x, now[|before| + 1..], n, b, before);
  }

  /** An open cell not on the path, pushed onto it, is a route from itself to itself. */
  lemma RouteOfOne(g: Grid, before: seq<Pos>, x: Pos, now: seq<Pos>)
    requires g.Valid() && Border.InBounds(g.nrows, g.ncols, x) && IsOpen(g, x)
    requires x !in before && now == before + [x]
    ensures RouteOnTop(g, before, now, x, x)
  {
    assert now[|before|..] == [x];
  }
}
