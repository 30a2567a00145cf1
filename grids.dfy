/**
 * The maze as a value: its dimensions and its glyphs in row-major order,
 * which cells are walkable, and what counts as a route through it.
 */
module Grids {
  import opened Border

  /** `isspace` in the "C" locale: space, tab, newline, vertical tab, form feed, carriage return. */
  predicate IsSpace(ch: char) {
    ch == ' ' || '\t' <= ch <= '\r'
  }

  datatype Grid = Grid(nrows: int, ncols: int, glyphs: seq<char>) {
    predicate Valid() {
      Shape(nrows, ncols) && |glyphs| == nrows * ncols
    }
  }

  /** Row-major offset of an in-bounds cell. */
  function Offset(nrows: int, ncols: int, p: Pos): (o: int)
    requires InBounds(nrows, ncols, p)
    ensures 0 <= o < nrows * ncols
  {
    OffsetInRange(nrows, ncols, p);
    p.0 * ncols + p.1
  }

  /** The row-major offset of an in-bounds cell lies inside a buffer of nrows*ncols cells. */
  lemma OffsetInRange(nrows: int, ncols: int, p: Pos)
    requires InBounds(nrows, ncols, p)
    ensures 0 <= p.0 * ncols + p.1 < nrows * ncols
  {
    assert p.0 * ncols + ncols == (p.0 + 1) * ncols;
    MulMonotone(p.0 + 1, nrows, ncols);
    MulMonotone(0, p.0, ncols);
  }

  lemma MulMonotone(a: int, b: int, n: nat)
    ensures a <= b ==> a * n <= b * n
  {
    if a <= b {
      assert b * n == a * n + (b - a) * n;
    }
  }

  /**
   * The row-major layout is a bijection between in-bounds cells and the
   * offsets 0 .. nrows*ncols-1: an offset splits back into row `o / ncols`
   * and column `o % ncols`.
   */
  lemma OffsetRoundTrip(nrows: int, ncols: int, p: Pos, o: int)
    requires InBounds(nrows, ncols, p)
    ensures Offset(nrows, ncols, p) / ncols == p.0 && Offset(nrows, ncols, p) % ncols == p.1
    ensures 0 <= o < nrows * ncols ==>
              InBounds(nrows, ncols, (o / ncols, o % ncols)) && Offset(nrows, ncols, (o / ncols, o % ncols)) == o
  {
    DivModUnique(p.0 * ncols + p.1, ncols, p.0, p.1);
    if 0 <= o < nrows * ncols {
      var q, r := o / ncols, o % ncols;
      assert o == q * ncols + r;
      MulMonotone(nrows, q, ncols);
      MulMonotone(q, -1, ncols);
    }
  }

  lemma DivModUnique(a: int, n: int, q: int, r: int)
    requires n > 0 && 0 <= r < n && a == q * n + r
    ensures a / n == q && a % n == r
  {
    var q', r' := a / n, a % n;
    assert (q - q') * n == r' - r;
    MulMonotone(1, q - q', n);
    MulMonotone(1, q' - q, n);
  }

  /** The glyph stored for an in-bounds cell. */
  function Glyph(g: Grid, p: Pos): char
    requires g.Valid() && InBounds(g.nrows, g.ncols, p)
  {
    g.glyphs[Offset(g.nrows, g.ncols, p)]
  }

  /** A walkable cell: its glyph is whitespace. */
  predicate IsOpen(g: Grid, p: Pos)
    requires g.Valid() && InBounds(g.nrows, g.ncols, p)
  {
    IsSpace(Glyph(g, p))
  }

  /** Some border cell is a wall. */
  ghost predicate HasBorderWall(g: Grid)
    requires g.Valid()
  {
    exists p :: OnBorder(g.nrows, g.ncols, p) && !IsOpen(g, p)
  }

  /**
   * A route from a to b: walkable in-bounds cells, each one orthogonal step
   * from the next, no cell twice.
   */
  predicate IsRoute(g: Grid, r: seq<Pos>, a: Pos, b: Pos)
    requires g.Valid()
  {
    && |r| >= 1 && r[0] == a && r[|r| - 1] == b
    && (forall i :: 0 <= i < |r| ==> InBounds(g.nrows, g.ncols, r[i]) && IsOpen(g, r[i]))
    && (forall i :: 0 <= i < |r| - 1 ==> Adjacent(r[i], r[i + 1]))
    && (forall i, j :: 0 <= i < j < |r| ==> r[i] != r[j])
  }

  /** No cell of r occurs in visited. */
  predicate Avoids(r: seq<Pos>, visited: seq<Pos>) {
    forall i :: 0 <= i < |r| ==> r[i] !in visited
  }

  /** Prepending a fresh walkable neighbour of a route's first cell gives a route. */
  lemma ExtendRoute(g: Grid, x: Pos, r: seq<Pos>, n: Pos, b: Pos, visited: seq<Pos>)
    requires g.Valid() && InBounds(g.nrows, g.ncols, x) && IsOpen(g, x)
    requires x !in visited && Adjacent(x, n)
    requires IsRoute(g, r, n, b) && Avoids(r, visited + [x])
    ensures IsRoute(g, [x] + r, x, b) && Avoids([x] + r, visited)
  {
    var r' := [x] + r;
    forall i, j | 0 <= i < j < |r'| ensures r'[i] != r'[j] {
      if i > 0 {
        assert r'[i] == r[i - 1] && r'[j] == r[j - 1];
      } else {
        assert r[j - 1] !in visited + [x];
      }
    }
    forall i | 0 <= i < |r'| - 1 ensures Adjacent(r'[i], r'[i + 1]) {
      if i > 0 {
        assert r'[i] == r[i - 1] && r'[i + 1] == r[i];
      }
    }
  }

  /**
   * A route from a to a different cell b goes on through a neighbour of a,
   * and its tail is a route that avoids a as well as what the whole route avoids.
   */
  lemma RouteTail(g: Grid, r: seq<Pos>, a: Pos, b: Pos, visited: seq<Pos>)
    requires g.Valid() && IsRoute(g, r, a, b) && a != b
    ensures |r| >= 2 && Adjacent(a, r[1]) && IsRoute(g, r[1..], r[1], b)
    ensures Avoids(r, visited) ==> Avoids(r[1..], visited + [a])
  {
    var t := r[1..];
    forall i | 0 <= i < |t| ensures t[i] != a {
      assert t[i] == r[i + 1] && r[0] == a;
    }
    forall i | 0 <= i < |t| - 1 ensures Adjacent(t[i], t[i + 1]) {
      assert t[i] == r[i + 1] && t[i + 1] == r[i + 2];
    }
    forall i, j | 0 <= i < j < |t| ensures t[i] != t[j] {
      assert t[i] == r[i + 1] && t[j] == r[j + 1];
    }
  }

  /** No route from a to b avoids the cells in visited. */
  ghost predicate NoRoute(g: Grid, a: Pos, b: Pos, visited: seq<Pos>)
    requires g.Valid()
  {
    forall r :: IsRoute(g, r, a, b) ==> !Avoids(r, visited)
  }

  /** `now` is `before` with a route from a to b that avoids `before` pushed on top. */
  ghost predicate RouteOnTop(g: Grid, before: seq<Pos>, now: seq<Pos>, a: Pos, b: Pos)
    requires g.Valid()
  {
    before <= now && IsRoute(g, now[|before|..], a, b) && Avoids(now[|before|..], before)
  }

  /**
   * If none of the four neighbours of x leads to b avoiding visited and x,
   * then no route from x to b avoids visited: every such route leaves x
   * through a neighbour and never comes back to x.
   */
  lemma NoRouteOnward(g: Grid, x: Pos, b: Pos, visited: seq<Pos>)
    requires g.Valid() && x != b
    requires NoRoute(g, (x.0 - 1, x.1), b, visited + [x])
    requires NoRoute(g, (x.0 + 1, x.1), b, visited + [x])
    requires NoRoute(g, (x.0, x.1 - 1), b, visited + [x])
    requires NoRoute(g, (x.0, x.1 + 1), b, visited + [x])
    ensures NoRoute(g, x, b, visited)
  {
    forall r | IsRoute(g, r, x, b) ensures !Avoids(r, visited) {
      RouteTail(g, r, x, b, visited);
      var t := r[1..];
      assert IsRoute(g, t, r[1], b);
      if r[1] == (x.0 - 1, x.1) {
        assert !Avoids(t, visited + [x]);
      } else if r[1] == (x.0 + 1, x.1) {
        assert !Avoids(t, visited + [x]);
      } else if r[1] == (x.0, x.1 - 1) {
        assert !Avoids(t, visited + [x]);
      } else {
        assert r[1] == (x.0, x.1 + 1);
        assert !Avoids(t, visited + [x]);
      }
    }
  }

  /** Over an empty path, "no route avoiding it" means no route at all. */
  lemma RouteFromEmptyPath(g: Grid, now: seq<Pos>, a: Pos, b: Pos)
    requires g.Valid()
    ensures NoRoute(g, a, b, []) <==> !exists r :: IsRoute(g, r, a, b)
    ensures RouteOnTop(g, [], now, a, b) ==> IsRoute(g, now, a, b)
  {
    assert now[0..] == now;
  }
}
