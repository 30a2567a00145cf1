/**
 * What the opening locator of `Solve` computes, as functions of the grid.
 *
 * All three searches of `Solve` step the same cursor clockwise along the
 * border, so a search is described by the perimeter index it looks at
 * first and the number of cells it may look at (B = BorderSize): the start
 * search looks at B cells from index 1, so at (0, 0) last; the run-consuming
 * loop looks from the start onwards until a wall; and the end search looks
 * at the B cells after that wall.
 */
module Openings {
  import opened Border
  import opened Grids

  datatype Option<T> = None | Some(value: T)

  /** What a search along the border is looking for. */
  datatype Want = Opening | Blocked | OtherOpening(start: Pos) | Spot(at: Pos)

  /** Border cell p is what the search wants. */
  predicate Matches(g: Grid, w: Want, p: Pos)
    requires g.Valid() && InBounds(g.nrows, g.ncols, p)
  {
    match w
    case Opening => IsOpen(g, p)
    case Blocked => !IsOpen(g, p)
    case OtherOpening(s) => IsOpen(g, p) && p != s
    case Spot(q) => p == q
  }

  /** The border cell of index k is what the search wants. */
  predicate Wanted(g: Grid, w: Want, k: int)
    requires g.Valid() && 0 <= k < BorderSize(g.nrows, g.ncols)
  {
    Matches(g, w, Perimeter(g.nrows, g.ncols, k))
  }

  /**
   * The index of the first wanted cell among the `fuel` cells looked at
   * clockwise from index k, if any.
   */
  function Search(g: Grid, w: Want, k: int, fuel: nat): (r: Option<int>)
    requires g.Valid() && 0 <= k < BorderSize(g.nrows, g.ncols)
    ensures r.Some? ==> 0 <= r.value < BorderSize(g.nrows, g.ncols)
    decreases fuel
  {
    if fuel == 0 then None
    else if Wanted(g, w, k) then Some(k)
    else Search(g, w, Next(g.nrows, g.ncols, k), fuel - 1)
  }

  /** A search that has fuel left either stops at k or goes on from the next index. */
  lemma SearchStep(g: Grid, w: Want, k: int, fuel: nat)
    requires g.Valid() && 0 <= k < BorderSize(g.nrows, g.ncols) && fuel > 0
    ensures Wanted(g, w, k) ==> Search(g, w, k, fuel) == Some(k)
    ensures !Wanted(g, w, k) ==> Search(g, w, k, fuel) == Search(g, w, Next(g.nrows, g.ncols, k), fuel - 1)
  {
  }

  /**
   * Within one lap, a search that finds a cell finds a wanted one, fewer
   * than `fuel` steps from k, before which no cell is wanted.
   */
  lemma {:induction false} SearchFound(g: Grid, w: Want, k: int, fuel: nat)
    requires g.Valid() && 0 <= k < BorderSize(g.nrows, g.ncols) && fuel <= BorderSize(g.nrows, g.ncols)
    requires Search(g, w, k, fuel).Some?
    ensures var r := Search(g, w, k, fuel).value;
      && Wanted(g, w, r) && Distance(g.nrows, g.ncols, k, r) < fuel
      && forall t :: 0 <= t < Distance(g.nrows, g.ncols, k, r) ==> !Wanted(g, w, Ahead(g.nrows, g.ncols, k, t))
    decreases fuel
  {
    if !Wanted(g, w, k) {
      var k' := Next(g.nrows, g.ncols, k);
      SearchFound(g, w, k', fuel - 1);
      var r := Search(g, w, k', fuel - 1).value;
      var d := Distance(g.nrows, g.ncols, k', r);
      assert r != k by {
        AheadOfNext(g.nrows, g.ncols, k, 0, k);
      }
      AheadOfNext(g.nrows, g.ncols, k, 0, r);
      forall t | 0 <= t < d + 1
        ensures !Wanted(g, w, Ahead(g.nrows, g.ncols, k, t))
      {
        if t > 0 {
          AheadOfNext(g.nrows, g.ncols, k, t - 1, k);
        }
      }
    }
  }

  /** A search finds nothing only when none of the `fuel` cells it looks at is wanted. */
  lemma {:induction false} SearchMissed(g: Grid, w: Want, k: int, fuel: nat)
    requires g.Valid() && 0 <= k < BorderSize(g.nrows, g.ncols) && fuel <= BorderSize(g.nrows, g.ncols)
    requires Search(g, w, k, fuel).None?
    ensures forall t :: 0 <= t < fuel ==> !Wanted(g, w, Ahead(g.nrows, g.ncols, k, t))
    decreases fuel
  {
    if fuel > 0 {
      var k' := Next(g.nrows, g.ncols, k);
      SearchMissed(g, w, k', fuel - 1);
      forall t | 0 <= t < fuel ensures !Wanted(g, w, Ahead(g.nrows, g.ncols, k, t)) {
        if t > 0 {
          AheadOfNext(g.nrows, g.ncols, k, t - 1, k);
        }
      }
    }
  }

  /** Both halves of what a search within one lap computes. */
  lemma SearchSpec(g: Grid, w: Want, k: int, fuel: nat)
    requires g.Valid() && 0 <= k < BorderSize(g.nrows, g.ncols) && fuel <= BorderSize(g.nrows, g.ncols)
    ensures var r := Search(g, w, k, fuel);
      && (r.Some? ==> Wanted(g, w, r.value) && Distance(g.nrows, g.ncols, k, r.value) < fuel)
      && (r.Some? ==> forall t :: 0 <= t < Distance(g.nrows, g.ncols, k, r.value) ==>
                        !Wanted(g, w, Ahead(g.nrows, g.ncols, k, t)))
      && (r.None? ==> forall t :: 0 <= t < fuel ==> !Wanted(g, w, Ahead(g.nrows, g.ncols, k, t)))
  {
    if Search(g, w, k, fuel).Some? {
      SearchFound(g, w, k, fuel);
    } else {
      SearchMissed(g, w, k, fuel);
    }
  }

  /** A search over a whole lap meets every border cell. */
  lemma SearchCoversLap(g: Grid, k: int, p: Pos)
    requires g.Valid() && 0 <= k < BorderSize(g.nrows, g.ncols) && OnBorder(g.nrows, g.ncols, p)
    ensures Search(g, Spot(p), k, BorderSize(g.nrows, g.ncols)).Some?
  {
    SearchSpec(g, Spot(p), k, BorderSize(g.nrows, g.ncols));
    assert Wanted(g, Spot(p), Ahead(g.nrows, g.ncols, k, Distance(g.nrows, g.ncols, k, Index(g.nrows, g.ncols, p))));
  }

  /**
   * The outcome of the opening locator. `Endless` is the case in which the
   * source's run-consuming loop never ends (the whole border is open).
   */
  datatype Located = NoStart | NoEnd(start: Pos) | Found(start: Pos, end: Pos) | Endless(start: Pos)

  /**
   * The three border loops as one function: the first opening after (0, 0),
   * the first wall at or after it, and the first open cell other than the
   * start in the lap after that wall. Its outcomes are border cells.
   */
  function Locate(g: Grid): (r: Located)
    requires g.Valid()
    ensures !r.NoStart? ==> OnBorder(g.nrows, g.ncols, r.start)
    ensures r.Found? ==> OnBorder(g.nrows, g.ncols, r.end)
  {
    var n := BorderSize(g.nrows, g.ncols);
    match Search(g, Opening, Next(g.nrows, g.ncols, 0), n)
    case None => NoStart
    case Some(s) =>
      match Search(g, Blocked, s, n)
      case None => Endless(Perimeter(g.nrows, g.ncols, s))
      case Some(w) =>
        match Search(g, OtherOpening(Perimeter(g.nrows, g.ncols, s)), Next(g.nrows, g.ncols, w), n)
        case None => NoEnd(Perimeter(g.nrows, g.ncols, s))
        case Some(e) => Found(Perimeter(g.nrows, g.ncols, s), Perimeter(g.nrows, g.ncols, e))
  }

  /** A 3 x 3 maze whose only walkable border cells are (0, 1) and (0, 2). */
  function WideOpeningGrid(): (g: Grid)
    ensures g.Valid()
  {
    Grid(3, 3, "#  ######")
  }

  /** Which border cells of that maze are walkable. */
  lemma WideOpeningCells()
    ensures var g := WideOpeningGrid();
      && IsOpen(g, (0, 1)) && IsOpen(g, (0, 2))
      && !IsOpen(g, (0, 0)) && !IsOpen(g, (1, 2)) && !IsOpen(g, (2, 2))
      && !IsOpen(g, (2, 1)) && !IsOpen(g, (2, 0)) && !IsOpen(g, (1, 0))
  {
    var g := WideOpeningGrid();
    assert g.glyphs == "#  ######";
  }

  /** Its border cells in clockwise order: (0,0) (0,1) (0,2) (1,2) (2,2) (2,1) (2,0) (1,0). */
  lemma WideOpeningBorder()
    ensures Perimeter(3, 3, 0) == (0, 0) && Perimeter(3, 3, 1) == (0, 1)
    ensures Perimeter(3, 3, 2) == (0, 2) && Perimeter(3, 3, 3) == (1, 2)
    ensures Perimeter(3, 3, 4) == (2, 2) && Perimeter(3, 3, 5) == (2, 1)
    ensures Perimeter(3, 3, 6) == (2, 0) && Perimeter(3, 3, 7) == (1, 0)
    ensures Next(3, 3, 0) == 1 && Next(3, 3, 3) == 4 && Next(3, 3, 7) == 0
  {
  }

  /** The start search and the run-consuming loop on that maze. */
  lemma WideOpeningStart()
    ensures Search(WideOpeningGrid(), Opening, 1, 8) == Some(1)
    ensures Search(WideOpeningGrid(), Blocked, 1, 8) == Some(3)
  {
    var g := WideOpeningGrid();
    WideOpeningCells();
    WideOpeningBorder();
    SearchStep(g, Opening, 1, 8);
    SearchStep(g, Blocked, 1, 8);
    SearchStep(g, Blocked, 2, 7);
    SearchStep(g, Blocked, 3, 6);
  }

  /** The end search on that maze: its lap from (2, 2) wraps round to (0, 2). */
  lemma WideOpeningEnd()
    ensures Search(WideOpeningGrid(), OtherOpening((0, 1)), 4, 8) == Some(2)
  {
    var g := WideOpeningGrid();
    var want := OtherOpening((0, 1));
    WideOpeningCells();
    WideOpeningBorder();
    SearchStep(g, want, 2, 1);
    SearchStep(g, want, 1, 2);
    SearchStep(g, want, 0, 3);
    SearchStep(g, want, 7, 4);
    SearchStep(g, want, 6, 5);
    SearchStep(g, want, 5, 6);
    SearchStep(g, want, 4, 7);
    SearchStep(g, want, 4, 8);
  }

  /**
   * The end need not lie in another opening. On the 3 x 3 maze whose border
   * is walled except for (0, 1) and (0, 2), which form one opening, the
   * start is (0, 1); the end search's lap comes back round through that
   * opening, skips the start and takes its neighbour (0, 2) as the end.
   */
  lemma EndInStartOpening()
    ensures var g := WideOpeningGrid();
      && IsOpen(g, (0, 1)) && IsOpen(g, (0, 2))
      && !IsOpen(g, (0, 0)) && !IsOpen(g, (1, 2)) && !IsOpen(g, (2, 2))
      && !IsOpen(g, (2, 1)) && !IsOpen(g, (2, 0)) && !IsOpen(g, (1, 0))
      && Locate(g) == Found((0, 1), (0, 2))
      && Adjacent(Locate(g).start, Locate(g).end)
  {
    WideOpeningCells();
    WideOpeningBorder();
    WideOpeningStart();
    WideOpeningEnd();
  }

  /**
   * The step of the walk from (0, 0) at which the start search looks at
   * border cell p: its index, except for (0, 0), which is looked at last.
   */
  function Rank(nrows: int, ncols: int, p: Pos): (n: int)
    requires Shape(nrows, ncols) && OnBorder(nrows, ncols, p)
    ensures 1 <= n <= BorderSize(nrows, ncols)
    ensures n == Distance(nrows, ncols, Next(nrows, ncols, 0), Index(nrows, ncols, p)) + 1
  {
    var k := Index(nrows, ncols, p);
    if k == 0 then BorderSize(nrows, ncols) else k
  }

  /** The start search fails exactly when no border cell is open. */
  lemma NoStartIffNoOpening(g: Grid)
    requires g.Valid()
    ensures Locate(g).NoStart? <==> forall p :: OnBorder(g.nrows, g.ncols, p) ==> !IsOpen(g, p)
  {
    var n := BorderSize(g.nrows, g.ncols);
    var one := Next(g.nrows, g.ncols, 0);
    SearchSpec(g, Opening, one, n);
    if Locate(g).NoStart? {
      forall p | OnBorder(g.nrows, g.ncols, p) ensures !IsOpen(g, p) {
        var t := Distance(g.nrows, g.ncols, one, Index(g.nrows, g.ncols, p));
        assert !Wanted(g, Opening, Ahead(g.nrows, g.ncols, one, t));
      }
    }
  }

  /**
   * The start is the open border cell the walk from (0, 0) reaches first:
   * a wide opening is entered at its first cell in walk order.
   */
  lemma StartIsFirstOpening(g: Grid)
    requires g.Valid() && !Locate(g).NoStart?
    ensures OnBorder(g.nrows, g.ncols, Locate(g).start) && IsOpen(g, Locate(g).start)
    ensures forall p :: OnBorder(g.nrows, g.ncols, p) && IsOpen(g, p) ==>
              Rank(g.nrows, g.ncols, Locate(g).start) <= Rank(g.nrows, g.ncols, p)
  {
    var n := BorderSize(g.nrows, g.ncols);
    var one := Next(g.nrows, g.ncols, 0);
    SearchSpec(g, Opening, one, n);
    var s := Search(g, Opening, one, n).value;
    IndexOfPerimeter(g.nrows, g.ncols, s);
    forall p | OnBorder(g.nrows, g.ncols, p) && IsOpen(g, p)
      ensures Rank(g.nrows, g.ncols, Locate(g).start) <= Rank(g.nrows, g.ncols, p)
    {
      var t := Distance(g.nrows, g.ncols, one, Index(g.nrows, g.ncols, p));
      assert Wanted(g, Opening, Ahead(g.nrows, g.ncols, one, t));
    }
  }

  /** The run-consuming loop would never stop exactly when the whole border is open. */
  lemma EndlessIffOpenBorder(g: Grid)
    requires g.Valid()
    ensures Locate(g).Endless? <==> forall p :: OnBorder(g.nrows, g.ncols, p) ==> IsOpen(g, p)
  {
    var n := BorderSize(g.nrows, g.ncols);
    var one := Next(g.nrows, g.ncols, 0);
    SearchSpec(g, Opening, one, n);
    if forall p :: OnBorder(g.nrows, g.ncols, p) ==> IsOpen(g, p) {
      assert Wanted(g, Opening, one);
      var s := Search(g, Opening, one, n).value;
      SearchSpec(g, Blocked, s, n);
    }
    if Locate(g).Endless? {
      var s := Search(g, Opening, one, n).value;
      SearchSpec(g, Blocked, s, n);
      forall p | OnBorder(g.nrows, g.ncols, p) ensures IsOpen(g, p) {
        var t := Distance(g.nrows, g.ncols, s, Index(g.nrows, g.ncols, p));
        assert !Wanted(g, Blocked, Ahead(g.nrows, g.ncols, s, t));
      }
    }
  }

  /** A located end is an open border cell other than the start. */
  lemma EndIsOtherOpening(g: Grid)
    requires g.Valid() && Locate(g).Found?
    ensures OnBorder(g.nrows, g.ncols, Locate(g).end) && IsOpen(g, Locate(g).end)
    ensures Locate(g).end != Locate(g).start
  {
    var n := BorderSize(g.nrows, g.ncols);
    var s := Search(g, Opening, Next(g.nrows, g.ncols, 0), n).value;
    var w := Search(g, Blocked, s, n).value;
    SearchSpec(g, OtherOpening(Perimeter(g.nrows, g.ncols, s)), Next(g.nrows, g.ncols, w), n);
  }

  /**
   * When the border has a wall, the end search fails exactly when the
   * start is the only open border cell.
   */
  lemma NoEndIffLoneOpening(g: Grid)
    requires g.Valid() && HasBorderWall(g)
    ensures Locate(g).NoEnd? <==>
              && !Locate(g).NoStart?
              && forall p :: OnBorder(g.nrows, g.ncols, p) && IsOpen(g, p) ==> p == Locate(g).start
  {
    var n := BorderSize(g.nrows, g.ncols);
    EndlessIffOpenBorder(g);
    if Locate(g).NoEnd? {
      var s := Search(g, Opening, Next(g.nrows, g.ncols, 0), n).value;
      var w := Search(g, Blocked, s, n).value;
      var after := Next(g.nrows, g.ncols, w);
      var start := Perimeter(g.nrows, g.ncols, s);
      SearchSpec(g, OtherOpening(start), after, n);
      forall p | OnBorder(g.nrows, g.ncols, p) && IsOpen(g, p) ensures p == start {
        var t := Distance(g.nrows, g.ncols, after, Index(g.nrows, g.ncols, p));
        assert !Wanted(g, OtherOpening(start), Ahead(g.nrows, g.ncols, after, t));
      }
    }
    if Locate(g).Found? {
      EndIsOtherOpening(g);
    }
  }
}
