# Maze solver: a Dafny model

The repository solves text mazes. A maze is a rectangle of characters. A
whitespace character is a walkable cell and anything else is a wall. The
solver has three parts:

- It walks the outer border clockwise from the top-left corner to find two
  open border cells, the start and the end. The end is an open border cell
  other than the start. It may lie in the start's own opening: a single
  opening two or more cells wide gives both.
- It searches for a route between them by depth-first search with
  backtracking. The current path is kept on a stack.
- It reports whether a route was found.

Two versions of the solver are modelled:

- `main.cc` keeps the maze as a row-major character buffer and has a
  working search.
- `maze.cc` keeps one `Cell` record per grid cell and has the same border
  walk and opening locator. Its search body is compiled out, so the search
  always fails.

The project has five modules:

- `Border` (border.dfy) is the geometry of the perimeter. Border cells are
  numbered clockwise from (0, 0) (`Perimeter`, `Index`). `Successor` is one
  clockwise step, and `Walk` iterates it from (0, 0). The lemmas say the
  walk is a closed cycle of `2*ncols + 2*nrows - 4` distinct cells that
  covers the whole border.
- `Grids` (grids.dfy) is the maze as a value.
  - It holds the row-major layout and the whitespace test of the "C" locale.
  - It defines what a route is: walkable, in-bounds cells, orthogonally
    adjacent in sequence, with no cell twice.
  - It holds the lemmas the depth-first search needs.
- `Openings` (openings.dfy) is the opening locator as a function of the
  grid.
  - `Search` is a bounded first-match search along the border.
  - `Locate` chains three searches, as the solver's three border loops do.
  - The lemmas say what the outcome means.
    - The start is the first open border cell in walk order.
    - The end is an open border cell other than the start, possibly in the
      start's own opening (`EndInStartOpening`).
    - The start search fails exactly when no border cell is open.
    - The end search fails exactly when the start is the only open border
      cell.
- `CharMaze` (char_maze.dfy) is main.cc. It has the `Path` stack class and
  the `Maze` class, whose methods keep the source's loops and mutable
  cursor. Each method is proved against the functions of `Openings`. The
  search method `Explore` is proved sound and complete: it succeeds exactly
  when a route to the end exists that avoids the cells already on the path.
  On success the cells it pushed are such a route, and on failure the path
  is unchanged.
- `CellMaze` (cell_maze.dfy) is maze.cc. It has the `Cell` record and its
  two constructors, and a `Maze` class over a sequence of cells with the
  same opening locator. Its stub `Explore` always fails.

Modelling choices:

- The maze's dimensions and buffer are `const` fields. The loader sets them
  and nothing afterwards changes them. The end cell `end_` is the one
  mutable field.
- The source passes `TravelBorder`'s cursor through pointers. Here the
  method takes the cursor and returns the new one.
- main.cc's single `Solve` has three border loops. Each loop is its own
  method (`FindStart`, `SkipOpenRun`, `FindEnd`), and `Solve` passes the
  cursor from one to the next. The loops, their bounds, their exits and the
  assignments to `end_` are the source's own.
- Perimeter indices that the loops carry along with the cursor are ghost.
- `Explore`'s short-circuit chain `a || b || c || d` is written as
  successive `if !found` attempts in the same order: north, south, west,
  east, which is the order of the code (west before east).
- The code's search is depth-first with backtracking, not breadth-first,
  so the route it finds need not be a shortest one. The model follows the
  code and proves no shortest-route property.
- A walkable cell is any whitespace glyph (`isspace`), not only a space.

## Model

| member | source | states |
|---|---|---|
| CharMaze.Path.constructor | main.cc:10 | a new path is empty |
| CharMaze.Path.Push | main.cc:11 | the point is appended at the end of the stack |
| CharMaze.Path.Pop | main.cc:12 | the last point is removed and the rest is kept, on a non-empty stack |
| CharMaze.Path.Size | main.cc:13 | the size is the number of stored points |
| CharMaze.Path.Contains | main.cc:15-22 | true exactly when some stored point equals (row, col) |
| CharMaze.PushThenPopRestores | main.cc:11-12 | a push followed by a pop leaves the point list as it was |
| CharMaze.Maze.constructor | main.cc:36 | a maze as `Maze()` and then `Read` leave it: the given dimensions and buffer, with `end_` value-initialised to (0, 0) |
| CharMaze.Maze.InBounds | main.cc:43-45 | holds exactly when 0 <= row < nrows and 0 <= col < ncols; then the row-major offset is inside the buffer |
| Grids.OffsetRoundTrip | main.cc:47-51 | the row-major offset row*ncols+col is a bijection between in-bounds cells and buffer positions: division and remainder by ncols recover the cell |
| CharMaze.Maze.Cell | main.cc:47-51 | the character returned is the glyph of cell (row, col) in the row-major grid |
| CharMaze.Maze.Empty | main.cc:53-55 | holds exactly when that glyph is whitespace, i.e. the cell is walkable |
| CharMaze.Maze.TravelBorder | main.cc:95-126 | a border cell goes to its clockwise successor; an in-bounds non-border cell goes to (-1, -1) |
| Border.SuccessorIsClockwise | main.cc:95-126 | the successor of a border cell is one orthogonal step away: right along the top, down the right edge, left along the bottom, up the left edge, corners included |
| Border.WalkCycle | main.cc:95-126 | 2*ncols+2*nrows-4 steps from (0, 0) come back to (0, 0), the cells met on the way are pairwise distinct, and every border cell is met |
| Border.WalkIsAhead | main.cc:95-126 | u steps of the walk from (0, 0) reach the border cell numbered u clockwise, for up to one lap |
| Border.WalkPeriodic | main.cc:95-126 | after each full lap the walk repeats itself |
| Openings.Search | main.cc:155-162 | the bounded first-match loop along the border: the index it returns, if any, is a perimeter index; its meaning is stated by the lemmas below |
| Openings.SearchFound | main.cc:155-162 | a bounded first-match search that succeeds returns a wanted cell within its bound, and no earlier cell in walk order is wanted |
| Openings.SearchMissed | main.cc:155-162 | a bounded first-match search that fails had no wanted cell among the cells it looked at |
| Openings.SearchSpec | main.cc:155-162 | both of the above, for every outcome of the search |
| Openings.SearchCoversLap | main.cc:174-184 | a search over a full lap reaches every border cell, so the end search passes the start |
| CharMaze.Maze.FindStart | main.cc:152-166 | the start loop ends on an open border cell exactly when the start search succeeds, and that cell is the one the search finds |
| CharMaze.Maze.SkipOpenRun | main.cc:168-171 | on a border with a wall, the loop stops on the first wall at or after the start |
| CharMaze.Maze.FindEnd | main.cc:173-188 | the end loop succeeds exactly when the end search finds an open cell other than the start, and sets end_ to it; when it fails, end_ equals the start |
| CharMaze.Maze.Solve | main.cc:148-198 | status is 1 without a start and 1 without an end (end_ then equals the start), else 0 with end_ set to the located end; the located outcome is never the endless one; solved holds exactly when a route from start to end exists, and the route returned is one |
| Openings.Locate | main.cc:148-188 | the whole opening locator: start search, run-consuming loop, end search; the start and the end it returns are border cells |
| Openings.NoStartIffNoOpening | main.cc:155-166 | the start search fails exactly when no border cell is walkable |
| Openings.StartIsFirstOpening | main.cc:155-162 | the start is a walkable border cell, and no walkable border cell comes before it in the walk from (0, 0), which looks at (0, 0) last |
| Openings.EndlessIffOpenBorder | main.cc:168-171 | the run-consuming loop finds no wall exactly when every border cell is walkable |
| Openings.EndIsOtherOpening | main.cc:173-184 | a located end is a walkable border cell other than the start |
| Openings.NoEndIffLoneOpening | main.cc:173-188 | on a border with a wall, the end search fails exactly when the start is the only walkable border cell |
| Openings.EndInStartOpening | main.cc:174-184 | on a 3 x 3 grid whose only walkable border cells are (0, 1) and (0, 2), one opening, the start is (0, 1) and the end is its neighbour (0, 2) |
| CharMaze.Maze.Explore | main.cc:200-227 | on failure the path is unchanged and no route from (row, col) to end_ avoids the cells on the path; on success the cells pushed on top of the old path form such a route; it terminates, since every call that goes on pushes a cell not yet on the path |
| CharMaze.RouteOfOne | main.cc:210-216 | a walkable cell not on the path that is the end is, once pushed, a one-cell route |
| CharMaze.ExtendAfterStep | main.cc:218-222 | a route found from a neighbour, on top of the path with the cell pushed, makes a route from the cell on top of the old path |
| Grids.ExtendRoute | main.cc:218-222 | prepending a walkable cell, adjacent to the first cell of a route and not on it, gives a route |
| Grids.RouteTail | main.cc:218-225 | a route to a different cell leaves through a neighbour, and its tail avoids the first cell |
| Grids.NoRouteOnward | main.cc:218-225 | if no neighbour leads to the end avoiding the path and the cell, then no route from the cell does |
| Grids.RouteFromEmptyPath | main.cc:190-191 | from an empty path, "no route avoiding the path" means "no route", and a route pushed on it is the whole path |
| CellMaze.DefaultCell | maze.cc:13 | a default cell has no direction, glyph NUL and distance -1 |
| CellMaze.CellOf | maze.cc:14 | a cell built from a glyph has no direction, that glyph and distance -1 |
| CellMaze.ConstructorsAgree | maze.cc:13-14 | the two constructors differ only in the glyph, and agree exactly when the glyph is NUL |
| CellMaze.Maze.constructor | maze.cc:23 | a maze as `Maze()` and then `Read` leave it: the given dimensions and cells, with `end_` value-initialised to (0, 0) |
| CellMaze.Maze.InBounds | maze.cc:25-27 | holds exactly when 0 <= row < nrows and 0 <= col < ncols; then the offset is inside the cell array |
| CellMaze.Maze.At | maze.cc:29-33 | the character returned is the original glyph of cell (row, col) in the row-major grid |
| CellMaze.Maze.Empty | maze.cc:35-37 | holds exactly when that glyph is whitespace |
| CellMaze.Maze.TravelBorder | maze.cc:76-107 | a border cell goes to its clockwise successor; an in-bounds non-border cell goes to (-1, -1) |
| CellMaze.Maze.FindStart | maze.cc:135-149 | as in main.cc: the start loop stops on the cell the start search finds, and fails exactly when the search does |
| CellMaze.Maze.SkipOpenRun | maze.cc:151-154 | as in main.cc: the loop stops on the first wall at or after the start |
| CellMaze.Maze.FindEnd | maze.cc:156-171 | as in main.cc: end_ is set to the first open cell other than the start, or is left equal to the start on failure |
| CellMaze.Maze.Solve | maze.cc:131-181 | the same status and end_ as main.cc for every located outcome, and the search never reports success |
| CellMaze.Maze.Explore | maze.cc:183-212 | always reports failure; the queue and the cells are values it cannot change |

## Left out

- Reading the maze file (`Read` in both files) is stream I/O and is left out.
  The `Maze` constructors take the dimensions and the glyphs, or the cells,
  as `Read` would leave them. `Read`'s unchecked buffer writes are not
  modelled.
- `Print`, `main` and every message written to standard output or standard
  error are output only and are left out. `Solve`'s `solved` and `route`
  results stand for the "Success!" / "Fail" message and the printed path.
- Memory management (`new[]`/`free`, `unique_ptr`) is left out: the buffer
  is a sequence with checked indices.
- `isspace` is modelled as the "C" locale set: space, tab, newline,
  vertical tab, form feed, carriage return. Other locales are left out.
- Integer widths are left out. `int` and `size_t` are unbounded here, which
  matches the source for every maze whose cell count fits in an `int`.
- Grids with fewer than two rows or two columns are left out (`Shape`).
  - With one row, the step from the top-right corner leaves the grid, and
    the next read is out of bounds.
  - With one column and three or more rows, the walk goes down to the
    bottom row and then moves back and forth between the last two rows. It
    never returns to (0, 0).
  - The 2 x 1 grid does walk a closed cycle of its two cells. It is left
    out only to keep `Shape` simple.
- CharMaze.Maze.Solve: requires a wall somewhere on the border. On an
  all-open border the source's run-consuming loop never ends, so the
  contract cannot describe a result there. `Openings.EndlessIffOpenBorder`
  characterises exactly the excluded mazes.
- CellMaze.Maze.Solve: requires a wall on the border, for the same reason.
- CharMaze.Maze.TravelBorder: says nothing about out-of-bounds input. The
  source moves some of those cells instead of mapping them to (-1, -1),
  and the solver never passes one.
- CellMaze.Maze.TravelBorder: says nothing about out-of-bounds input, for
  the same reason.
- A breadth-first search with per-cell distances and back-directions is not
  in the code. maze.cc only declares the `dir` and `dist` fields, and its
  search body is compiled out. No such search is modelled.
- maze.cc's disabled `Print` is left out.
- Call-stack depth is left out. main.cc's `Explore` recurses once for each
  cell on the path, so on a large open maze it can nest up to nrows*ncols
  calls deep and overflow the stack. The model returns a result there.
