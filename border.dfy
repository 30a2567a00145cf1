/**
 * Geometry of the maze's outer perimeter.
 *
 * The perimeter of an nrows x ncols grid is numbered clockwise from the
 * top-left corner: index 0 is (0, 0), the top row runs rightwards, then the
 * right column downwards, the bottom row leftwards and the left column
 * upwards. `Perimeter` and `Index` are the two directions of that numbering;
 * `Successor` is the step of the border walk defined through it, `Ahead`
 * is the same walk on indices, and `Walk` iterates the step from the
 * top-left corner.
 */
module Border {

  /** A (row, col) coordinate; the solver uses (-1, -1) as "no cell". */
  type Pos = (int, int)

  /** The grids the border walk is defined for (see README: a one-row grid walks off the grid). */
  predicate Shape(nrows: int, ncols: int) {
    nrows >= 2 && ncols >= 2
  }

  predicate InBounds(nrows: int, ncols: int, p: Pos) {
    0 <= p.0 < nrows && 0 <= p.1 < ncols
  }

  predicate OnBorder(nrows: int, ncols: int, p: Pos) {
    InBounds(nrows, ncols, p) && (p.0 == 0 || p.0 == nrows - 1 || p.1 == 0 || p.1 == ncols - 1)
  }

  /** p and q are one orthogonal step apart. */
  predicate Adjacent(p: Pos, q: Pos) {
    (p.0 == q.0 && (p.1 - q.1 == 1 || q.1 - p.1 == 1)) ||
    (p.1 == q.1 && (p.0 - q.0 == 1 || q.0 - p.0 == 1))
  }

  /** Number of border cells, corners counted once. */
  function BorderSize(nrows: int, ncols: int): int {
    2 * ncols + 2 * nrows - 4
  }

  /** The k-th border cell in clockwise order from (0, 0). */
  function Perimeter(nrows: int, ncols: int, k: int): (p: Pos)
    requires Shape(nrows, ncols) && 0 <= k < BorderSize(nrows, ncols)
    ensures OnBorder(nrows, ncols, p)
  {
    if k < ncols then (0, k)
    else if k < ncols + nrows - 1 then (k - ncols + 1, ncols - 1)
    else if k < 2 * ncols + nrows - 2 then (nrows - 1, 2 * ncols + nrows - 3 - k)
    else (BorderSize(nrows, ncols) - k, 0)
  }

  /** The position of a border cell in the clockwise numbering. */
  function Index(nrows: int, ncols: int, p: Pos): (k: int)
    requires Shape(nrows, ncols) && OnBorder(nrows, ncols, p)
    ensures 0 <= k < BorderSize(nrows, ncols)
    ensures Perimeter(nrows, ncols, k) == p
  {
    if p.0 == 0 then p.1
    else if p.1 == ncols - 1 then ncols - 1 + p.0
    else if p.0 == nrows - 1 then 2 * ncols + nrows - 3 - p.1
    else BorderSize(nrows, ncols) - p.0
  }

  /** Numbering and positions are inverse: no two indices name the same cell. */
  lemma IndexOfPerimeter(nrows: int, ncols: int, k: int)
    requires Shape(nrows, ncols) && 0 <= k < BorderSize(nrows, ncols)
    ensures Index(nrows, ncols, Perimeter(nrows, ncols, k)) == k
  {
  }

  /** The index after k in the clockwise numbering, wrapping from the last index to 0. */
  function Next(nrows: int, ncols: int, k: int): (j: int)
    requires Shape(nrows, ncols) && 0 <= k < BorderSize(nrows, ncols)
    ensures 0 <= j < BorderSize(nrows, ncols)
  {
    if k + 1 == BorderSize(nrows, ncols) then 0 else k + 1
  }

  /** The next border cell clockwise; after the last index the walk is back at (0, 0). */
  function Successor(nrows: int, ncols: int, p: Pos): (q: Pos)
    requires Shape(nrows, ncols) && OnBorder(nrows, ncols, p)
    ensures OnBorder(nrows, ncols, q)
  {
    Perimeter(nrows, ncols, Next(nrows, ncols, Index(nrows, ncols, p)))
  }

  /**
   * The successor moves one cell clockwise: right along the top row, down
   * the right column, left along the bottom row, up the left column. The
   * four cases cover every border cell, corners included.
   */
  lemma SuccessorIsClockwise(nrows: int, ncols: int, p: Pos)
    requires Shape(nrows, ncols) && OnBorder(nrows, ncols, p)
    ensures Adjacent(p, Successor(nrows, ncols, p))
    ensures p.0 == 0 && p.1 < ncols - 1 ==> Successor(nrows, ncols, p) == (0, p.1 + 1)
    ensures p.1 == ncols - 1 && p.0 < nrows - 1 ==> Successor(nrows, ncols, p) == (p.0 + 1, p.1)
    ensures p.0 == nrows - 1 && p.1 > 0 ==> Successor(nrows, ncols, p) == (p.0, p.1 - 1)
    ensures p.1 == 0 && p.0 > 0 ==> Successor(nrows, ncols, p) == (p.0 - 1, 0)
  {
  }

  /** On indices the successor is `Next`. */
  lemma SuccessorOfPerimeter(nrows: int, ncols: int, k: int)
    requires Shape(nrows, ncols) && 0 <= k < BorderSize(nrows, ncols)
    ensures Successor(nrows, ncols, Perimeter(nrows, ncols, k)) == Perimeter(nrows, ncols, Next(nrows, ncols, k))
  {
    IndexOfPerimeter(nrows, ncols, k);
  }

  /** The index reached u clockwise steps after index k, for at most one lap. */
  function Ahead(nrows: int, ncols: int, k: int, u: int): (j: int)
    requires Shape(nrows, ncols) && 0 <= k < BorderSize(nrows, ncols) && 0 <= u <= BorderSize(nrows, ncols)
    ensures 0 <= j < BorderSize(nrows, ncols)
  {
    if k + u < BorderSize(nrows, ncols) then k + u else k + u - BorderSize(nrows, ncols)
  }

  /** The number of clockwise steps from index k to index j, less than one lap. */
  function Distance(nrows: int, ncols: int, k: int, j: int): (u: int)
    requires Shape(nrows, ncols) && 0 <= k < BorderSize(nrows, ncols) && 0 <= j < BorderSize(nrows, ncols)
    ensures 0 <= u < BorderSize(nrows, ncols) && Ahead(nrows, ncols, k, u) == j
  {
    if k <= j then j - k else j - k + BorderSize(nrows, ncols)
  }

  /** Starting one index later is one step less: to every index but k itself. */
  lemma AheadOfNext(nrows: int, ncols: int, k: int, u: int, j: int)
    requires Shape(nrows, ncols) && 0 <= k < BorderSize(nrows, ncols) && 0 <= u < BorderSize(nrows, ncols)
    requires 0 <= j < BorderSize(nrows, ncols)
    ensures Ahead(nrows, ncols, Next(nrows, ncols, k), u) == Ahead(nrows, ncols, k, u + 1)
    ensures j != k ==> Distance(nrows, ncols, Next(nrows, ncols, k), j) + 1 == Distance(nrows, ncols, k, j)
  {
  }

  /** The cell reached after k steps of the border walk started at (0, 0). */
  function Walk(nrows: int, ncols: int, k: nat): (p: Pos)
    requires Shape(nrows, ncols)
    ensures OnBorder(nrows, ncols, p)
  {
    if k == 0 then (0, 0) else Successor(nrows, ncols, Walk(nrows, ncols, k - 1))
  }

  /**
   * Walking u more steps from a cell of index k is walking u steps ahead
   * in the numbering: the border walk is `Ahead` from index 0, and within
   * a lap it takes the cells in clockwise order.
   */
  lemma {:induction false} WalkIsAhead(nrows: int, ncols: int, u: nat)
    requires Shape(nrows, ncols) && u <= BorderSize(nrows, ncols)
    ensures Walk(nrows, ncols, u) == Perimeter(nrows, ncols, Ahead(nrows, ncols, 0, u))
  {
    if u > 0 {
      WalkIsAhead(nrows, ncols, u - 1);
      SuccessorOfPerimeter(nrows, ncols, Ahead(nrows, ncols, 0, u - 1));
    }
  }

  /**
   * The border walk is a closed cycle: BorderSize steps from (0, 0) come
   * back to (0, 0), the cells of one lap are pairwise distinct, and every
   * border cell p is visited during the lap, after Index(p) steps.
   */
  lemma WalkCycle(nrows: int, ncols: int)
    requires Shape(nrows, ncols)
    ensures Walk(nrows, ncols, BorderSize(nrows, ncols)) == Walk(nrows, ncols, 0) == (0, 0)
    ensures forall i: nat, j: nat :: i < j < BorderSize(nrows, ncols) ==>
              Walk(nrows, ncols, i) != Walk(nrows, ncols, j)
    ensures forall p :: OnBorder(nrows, ncols, p) ==> Walk(nrows, ncols, Index(nrows, ncols, p)) == p
  {
    WalkIsAhead(nrows, ncols, BorderSize(nrows, ncols));
    forall i: nat, j: nat | i < j < BorderSize(nrows, ncols)
      ensures Walk(nrows, ncols, i) != Walk(nrows, ncols, j)
    {
      WalkIsAhead(nrows, ncols, i);
      WalkIsAhead(nrows, ncols, j);
      IndexOfPerimeter(nrows, ncols, i);
      IndexOfPerimeter(nrows, ncols, j);
    }
    forall p | OnBorder(nrows, ncols, p)
      ensures Walk(nrows, ncols, Index(nrows, ncols, p)) == p
    {
      WalkIsAhead(nrows, ncols, Index(nrows, ncols, p));
    }
  }

  /** The walk repeats itself after every lap. */
  lemma {:induction false} WalkPeriodic(nrows: int, ncols: int, k: nat)
    requires Shape(nrows, ncols)
    ensures Walk(nrows, ncols, k + BorderSize(nrows, ncols)) == Walk(nrows, ncols, k)
  {
    if k == 0 {
      WalkIsAhead(nrows, ncols, BorderSize(nrows, ncols));
    } else {
      WalkPeriodic(nrows, ncols, k - 1);
    }
  }
}
