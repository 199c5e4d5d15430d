/**
 * The rules of Conway's Game of Life on a bounded, row-major grid.
 *
 * A grid of width `w` and height `h` is a `seq<bool>` of length `w * h`; cell
 * (x, y) lives at index `y * w + x`.  Positions outside the grid count as dead
 * (there is no wrap-around).  Everything here is a specification: the
 * imperative code in the other modules is proved against these definitions.
 */
module Life {

  // ---------------------------------------------------------------------------
  // Row-major indexing
  // ---------------------------------------------------------------------------

  /** An in-bounds position has an index inside the grid. */
  lemma IndexInGrid(w: nat, h: nat, x: int, y: int)
    requires 0 <= x < w && 0 <= y < h
    ensures 0 <= y * w + x < w * h
  {
    assert y * w <= (h - 1) * w by {
      assert (h - 1) * w - y * w == (h - 1 - y) * w;
    }
  }

  /** Row `y` of the grid occupies indices `y * w` up to `(y + 1) * w`. */
  lemma RowSpan(w: nat, h: nat, y: int)
    requires 0 <= y < h
    ensures 0 <= y * w && y * w + w == (y + 1) * w <= w * h
  {
    if w > 0 {
      IndexInGrid(w, h, w - 1, y);
    }
  }

  /** The column and the row of an index are recovered by `%` and `/`. */
  lemma Coords(w: nat, x: int, y: int)
    requires 0 <= x < w
    ensures (y * w + x) / w == y && (y * w + x) % w == x
  {
    var l := y * w + x;
    var q, r := l / w, l % w;
    assert l == q * w + r && 0 <= r < w;
    assert (q - y) * w == q * w - y * w;
    if q > y {
      MulAtLeast(q - y, w);
    } else if q < y {
      MulAtLeast(y - q, w);
    }
  }

  lemma MulAtLeast(a: int, w: nat)
    requires a >= 1
    ensures a * w >= w
  {
    assert a * w == (a - 1) * w + w;
  }

  // ---------------------------------------------------------------------------
  // Neighbour count
  // ---------------------------------------------------------------------------

  /** 1 if (xx, yy) is inside the grid and alive, 0 otherwise. */
  function Live(g: seq<bool>, w: nat, h: nat, xx: int, yy: int): nat
    requires |g| == w * h
  {
    if 0 <= xx < w && 0 <= yy < h then
      IndexInGrid(w, h, xx, yy);
      if g[yy * w + xx] then 1 else 0
    else
      0
  }

  /** The contribution of offset (i, j) around (x, y); the centre contributes nothing. */
  function Term(g: seq<bool>, w: nat, h: nat, x: int, y: int, i: int, j: int): nat
    requires |g| == w * h
  {
    if i == 0 && j == 0 then 0 else Live(g, w, h, x + i, y + j)
  }

  /**
   * The terms scanned before position (xx, yy) of the 3 x 3 block around
   * (x, y), when rows yy go from y - 1 to y + 1 and, within a row, columns xx
   * go from x - 1 to x + 1; (x + 2, yy) ends row yy.
   */
  function CountBefore(g: seq<bool>, w: nat, h: nat, x: int, y: int, yy: int, xx: int): nat
    requires |g| == w * h
    requires y - 1 <= yy <= y + 2 && x - 1 <= xx <= x + 2
    decreases yy - y + 1, xx - x + 1
  {
    if xx > x - 1 then CountBefore(g, w, h, x, y, yy, xx - 1) + Term(g, w, h, x, y, xx - 1 - x, yy - y)
    else if yy > y - 1 then CountBefore(g, w, h, x, y, yy - 1, x + 2)
    else 0
  }

  /**
   * The number of live cells among the (up to) eight in-bounds positions
   * (x + i, y + j), i, j in {-1, 0, 1}, (i, j) != (0, 0).
   */
  function Count(g: seq<bool>, w: nat, h: nat, x: int, y: int): nat
    requires |g| == w * h
  {
    CountBefore(g, w, h, x, y, y + 2, x - 1)
  }

  /** Scanning row `yy` of the block adds its three terms. */
  lemma RowScan(g: seq<bool>, w: nat, h: nat, x: int, y: int, yy: int)
    requires |g| == w * h && y - 1 <= yy <= y + 1
    ensures CountBefore(g, w, h, x, y, yy, x + 2) == CountBefore(g, w, h, x, y, yy, x - 1) +
      Term(g, w, h, x, y, -1, yy - y) + Term(g, w, h, x, y, 0, yy - y) + Term(g, w, h, x, y, 1, yy - y)
  {
    assert CountBefore(g, w, h, x, y, yy, x + 1) ==
      CountBefore(g, w, h, x, y, yy, x) + Term(g, w, h, x, y, 0, yy - y);
  }

  /** The count written out as its eight terms. */
  lemma CountUnfold(g: seq<bool>, w: nat, h: nat, x: int, y: int)
    requires |g| == w * h
    ensures Count(g, w, h, x, y) ==
      Live(g, w, h, x - 1, y - 1) + Live(g, w, h, x, y - 1) + Live(g, w, h, x + 1, y - 1) +
      Live(g, w, h, x - 1, y) + Live(g, w, h, x + 1, y) +
      Live(g, w, h, x - 1, y + 1) + Live(g, w, h, x, y + 1) + Live(g, w, h, x + 1, y + 1)
  {
    RowScan(g, w, h, x, y, y - 1);
    RowScan(g, w, h, x, y, y);
    RowScan(g, w, h, x, y, y + 1);
    assert CountBefore(g, w, h, x, y, y + 1, x - 1) == CountBefore(g, w, h, x, y, y, x + 2);
    assert CountBefore(g, w, h, x, y, y, x - 1) == CountBefore(g, w, h, x, y, y - 1, x + 2);
  }

  /** A cell has between zero and eight live neighbours. */
  lemma CountBounds(g: seq<bool>, w: nat, h: nat, x: int, y: int)
    requires |g| == w * h
    ensures 0 <= Count(g, w, h, x, y) <= 8
  {
    CountUnfold(g, w, h, x, y);
  }

  /** In a grid with no live cell every count is zero. */
  lemma CountAllDead(g: seq<bool>, w: nat, h: nat, x: int, y: int)
    requires |g| == w * h
    requires !(true in g)
    ensures Count(g, w, h, x, y) == 0
  {
    CountUnfold(g, w, h, x, y);
    forall xx, yy ensures Live(g, w, h, xx, yy) == 0 {
      if 0 <= xx < w && 0 <= yy < h {
        IndexInGrid(w, h, xx, yy);
        assert g[yy * w + xx] in g;
      }
    }
  }

  /** `g'` has every live cell of `g` (and perhaps more). */
  predicate Covers(g: seq<bool>, g': seq<bool>)
    requires |g| == |g'|
  {
    forall k :: 0 <= k < |g| && g[k] ==> g'[k]
  }

  lemma {:induction false} CountBeforeMonotone(g: seq<bool>, g': seq<bool>, w: nat, h: nat, x: int, y: int,
                                               yy: int, xx: int)
    requires |g| == w * h && |g'| == w * h && Covers(g, g')
    requires y - 1 <= yy <= y + 2 && x - 1 <= xx <= x + 2
    ensures CountBefore(g, w, h, x, y, yy, xx) <= CountBefore(g', w, h, x, y, yy, xx)
    decreases yy - y + 1, xx - x + 1
  {
    if xx > x - 1 {
      if 0 <= xx - 1 < w && 0 <= yy < h {
        IndexInGrid(w, h, xx - 1, yy);
      }
      CountBeforeMonotone(g, g', w, h, x, y, yy, xx - 1);
    } else if yy > y - 1 {
      CountBeforeMonotone(g, g', w, h, x, y, yy - 1, x + 2);
    }
  }

  /** Adding live cells never lowers a neighbour count. */
  lemma CountMonotone(g: seq<bool>, g': seq<bool>, w: nat, h: nat, x: int, y: int)
    requires |g| == w * h && |g'| == w * h && Covers(g, g')
    ensures Count(g, w, h, x, y) <= Count(g', w, h, x, y)
  {
    CountBeforeMonotone(g, g', w, h, x, y, y + 2, x - 1);
  }

  /**
   * A full count of eight is only possible for an interior cell: a cell on the
   * border has at most five in-bounds neighbours.
   */
  lemma FullCountIsInterior(g: seq<bool>, w: nat, h: nat, x: int, y: int)
    requires |g| == w * h
    requires Count(g, w, h, x, y) == 8
    ensures 0 < x < w - 1 && 0 < y < h - 1
  {
    CountUnfold(g, w, h, x, y);
  }

  // ---------------------------------------------------------------------------
  // The life rule and one generation
  // ---------------------------------------------------------------------------

  /** B3/S23: alive next iff three live neighbours, or alive now with two. */
  predicate Rule(alive: bool, pop: int) {
    pop == 3 || (alive && pop == 2)
  }

  /** The four classic rules follow from `Rule`. */
  lemma LifeRules(alive: bool, pop: int)
    ensures alive && pop < 2 ==> !Rule(alive, pop)                 // under-population
    ensures alive && (pop == 2 || pop == 3) ==> Rule(alive, pop)   // survival
    ensures alive && pop > 3 ==> !Rule(alive, pop)                 // over-population
    ensures !alive ==> (Rule(alive, pop) <==> pop == 3)            // reproduction
  {
  }

  /** The neighbour counts of cells x, x + 1, ..., w - 1 of row y. */
  function RowCounts(g: seq<bool>, w: nat, h: nat, y: int, x: nat): (r: seq<nat>)
    requires |g| == w * h
    ensures |r| == if x <= w then w - x else 0
    decreases w - x
  {
    if x >= w then [] else [Count(g, w, h, x, y)] + RowCounts(g, w, h, y, x + 1)
  }

  /** The neighbour counts of every cell of rows y, y + 1, ..., h - 1, row after row. */
  function RowsCounts(g: seq<bool>, w: nat, h: nat, y: nat): (r: seq<nat>)
    requires |g| == w * h
    ensures |r| == if y <= h then (h - y) * w else 0
    decreases h - y
  {
    if y >= h then []
    else
      assert (h - y) * w == w + (h - (y + 1)) * w;
      RowCounts(g, w, h, y, 0) + RowsCounts(g, w, h, y + 1)
  }

  /** The neighbour count of every cell, in index order. */
  function Counts(g: seq<bool>, w: nat, h: nat): (r: seq<nat>)
    requires |g| == w * h
    ensures |r| == |g|
  {
    RowsCounts(g, w, h, 0)
  }

  lemma {:induction false} RowCountsAt(g: seq<bool>, w: nat, h: nat, y: int, x0: nat, x: nat)
    requires |g| == w * h && x0 <= x < w
    ensures RowCounts(g, w, h, y, x0)[x - x0] == Count(g, w, h, x, y)
    decreases x - x0
  {
    if x0 < x {
      RowCountsAt(g, w, h, y, x0 + 1, x);
    }
  }

  lemma {:induction false} RowsCountsAt(g: seq<bool>, w: nat, h: nat, y0: nat, x: nat, y: nat)
    requires |g| == w * h && x < w && y0 <= y < h
    ensures 0 <= (y - y0) * w + x < |RowsCounts(g, w, h, y0)|
    ensures RowsCounts(g, w, h, y0)[(y - y0) * w + x] == Count(g, w, h, x, y)
    decreases y - y0
  {
    var row := RowCounts(g, w, h, y0, 0);
    var rest := RowsCounts(g, w, h, y0 + 1);
    assert RowsCounts(g, w, h, y0) == row + rest;
    var k := (y - y0) * w + x;
    if y0 == y {
      assert k == x;
      RowCountsAt(g, w, h, y, 0, x);
    } else {
      var k' := (y - (y0 + 1)) * w + x;
      assert k == w + k' by {
        assert (y - y0) * w == w + (y - (y0 + 1)) * w;
      }
      RowsCountsAt(g, w, h, y0 + 1, x, y);
      assert (row + rest)[k] == rest[k'];
    }
  }

  /** Entry (x, y) of `Counts` is the neighbour count of (x, y). */
  lemma CountsAt(g: seq<bool>, w: nat, h: nat, x: int, y: int)
    requires |g| == w * h && 0 <= x < w && 0 <= y < h
    ensures 0 <= y * w + x < |g| && Counts(g, w, h)[y * w + x] == Count(g, w, h, x, y)
  {
    RowsCountsAt(g, w, h, 0, x, y);
  }

  /** The next generation of `g`: every cell follows `Rule` on its own count. */
  function Step(g: seq<bool>, w: nat, h: nat): (r: seq<bool>)
    requires |g| == w * h
    ensures |r| == |g|
  {
    var counts := Counts(g, w, h);
    seq(|g|, l requires 0 <= l < |g| => Rule(g[l], counts[l]))
  }

  /** Cell (x, y) of the next generation follows the rule on (x, y) of `g`. */
  lemma StepAt(g: seq<bool>, w: nat, h: nat, x: int, y: int)
    requires |g| == w * h && 0 <= x < w && 0 <= y < h
    ensures 0 <= y * w + x < |g|
    ensures Step(g, w, h)[y * w + x] == Rule(g[y * w + x], Count(g, w, h, x, y))
  {
    CountsAt(g, w, h, x, y);
  }

  /** Every index of the grid is the index of its column `l % w` in its row `l / w`. */
  lemma Split(w: nat, h: nat, l: int)
    requires 0 <= l < w * h
    ensures 0 <= l % w < w && 0 <= l / w < h && l == (l / w) * w + l % w
  {
    assert w > 0;
  }

  /** In a grid with no live cell every cell stays dead. */
  lemma StepCellAllDead(g: seq<bool>, w: nat, h: nat, l: int)
    requires |g| == w * h && !(true in g) && 0 <= l < |g|
    ensures Step(g, w, h)[l] == g[l]
  {
    Split(w, h, l);
    var x, y := l % w, l / w;
    StepAt(g, w, h, x, y);
    CountAllDead(g, w, h, x, y);
    assert g[l] in g;
  }

  /** A grid with no live cell is a fixed point of the step. */
  lemma StepAllDead(g: seq<bool>, w: nat, h: nat)
    requires |g| == w * h && !(true in g)
    ensures Step(g, w, h) == g
  {
    forall l | 0 <= l < |g| ensures Step(g, w, h)[l] == g[l] {
      StepCellAllDead(g, w, h, l);
    }
  }

  /** An over-populated cell is dead in the next generation however many cells are added around it, whatever its own value. */
  lemma OverpopulationIsFinal(g: seq<bool>, g': seq<bool>, w: nat, h: nat, x: int, y: int, alive: bool)
    requires |g| == w * h && |g'| == w * h && Covers(g, g')
    requires Count(g, w, h, x, y) >= 4
    ensures !Rule(alive, Count(g', w, h, x, y))
  {
    CountMonotone(g, g', w, h, x, y);
  }

  // ---------------------------------------------------------------------------
  // Predecessors
  // ---------------------------------------------------------------------------

  /** `p` steps to `g` and is not itself `g` (a fixed point is no answer). */
  predicate IsPredecessor(p: seq<bool>, g: seq<bool>, w: nat, h: nat)
    requires |p| == w * h && |g| == w * h
  {
    Step(p, w, h) == g && p != g
  }

  /** A predecessor always has a live cell. */
  lemma PredecessorIsNotEmpty(p: seq<bool>, g: seq<bool>, w: nat, h: nat)
    requires |p| == w * h && |g| == w * h
    requires IsPredecessor(p, g, w, h)
    ensures true in p
  {
    if !(true in p) {
      StepAllDead(p, w, h);
    }
  }

  /** Hence an all-dead grid is never accepted as a predecessor. */
  lemma AllDeadIsNoPredecessor(z: seq<bool>, g: seq<bool>, w: nat, h: nat)
    requires |z| == w * h && |g| == w * h && !(true in z)
    ensures !IsPredecessor(z, g, w, h)
  {
    if IsPredecessor(z, g, w, h) {
      PredecessorIsNotEmpty(z, g, w, h);
    }
  }

  /** `g` has a chain of `d` successive non-fixed-point predecessors. */
  ghost predicate HasChain(g: seq<bool>, w: nat, h: nat, d: int)
    requires |g| == w * h
    decreases d
  {
    d <= 0 || exists p: seq<bool> :: |p| == w * h && IsPredecessor(p, g, w, h) && HasChain(p, w, h, d - 1)
  }

  /** A predecessor with `d - 1` generations of ancestry gives its successor `d`. */
  lemma ChainExtends(p: seq<bool>, g: seq<bool>, w: nat, h: nat, d: int)
    requires |p| == w * h && |g| == w * h
    requires IsPredecessor(p, g, w, h) && HasChain(p, w, h, d - 1)
    ensures HasChain(g, w, h, d)
  {
  }

  // ---------------------------------------------------------------------------
  // The partial checks used for pruning
  // ---------------------------------------------------------------------------

  /**
   * The fixed-region check's condition for a cell that must become `want`:
   * alive needs (alive and 2) or 3; dead needs (dead and 2), at most 1, or at least 4.
   */
  predicate Compatible(want: bool, alive: bool, pop: int) {
    if want then (alive && pop == 2) || pop == 3
    else (!alive && pop == 2) || pop <= 1 || pop >= 4
  }

  /** The fixed-region condition is exactly the life rule restated. */
  lemma CompatibleIsRule(want: bool, alive: bool, pop: int)
    ensures Compatible(want, alive, pop) <==> Rule(alive, pop) == want
  {
  }

  /**
   * Cell `l` counts as settled for the fixed-region check: it lies more than a
   * row and a cell before `cur`, or it is fixed and all eight neighbours are fixed.
   */
  predicate Settled(fixed: seq<bool>, w: nat, h: nat, cur: int, l: int)
    requires |fixed| == w * h && 0 <= l < |fixed|
  {
    l < cur - w - 1 || (fixed[l] && Counts(fixed, w, h)[l] == 8)
  }

  /** Every settled cell of `prev` already steps to its wanted value. */
  predicate FixedRegionHolds(prev: seq<bool>, fixed: seq<bool>, want: seq<bool>, cur: int, w: nat, h: nat)
    requires |prev| == w * h && |fixed| == w * h && |want| == w * h
  {
    forall l :: 0 <= l < |prev| && Settled(fixed, w, h, cur, l) ==> Step(prev, w, h)[l] == want[l]
  }

  /** A complete predecessor satisfies the fixed-region predicate for every mask and index. */
  lemma PredecessorPassesFixedRegion(p: seq<bool>, g: seq<bool>, fixed: seq<bool>, cur: int, w: nat, h: nat)
    requires |p| == w * h && |g| == w * h && |fixed| == w * h
    requires IsPredecessor(p, g, w, h)
    ensures FixedRegionHolds(p, fixed, g, cur, w, h)
  {
  }

  /**
   * The single-cell check used by the row scanner: a cell that must become
   * `want` is not yet refuted by its count.
   */
  predicate Plausible(want: bool, pop: int) {
    if want then 2 <= pop <= 3 else pop != 3
  }

  /** A count is plausible exactly when some value of the cell reaches `want`. */
  lemma PlausibleIsSomeRule(want: bool, pop: int)
    ensures Plausible(want, pop) <==> (Rule(true, pop) == want || Rule(false, pop) == want)
  {
  }
}
