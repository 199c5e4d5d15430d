/**
 * The grid primitives of the solver: the neighbour counter, the terminal
 * check, the fixed-region check and the single-cell check.  Each loops over
 * an array the way the original does and is proved equal to the
 * specification in module Life.  The original methods use their World
 * receiver only for its width and height, which are parameters here.
 */
module GridChecks {
  import opened Life

  /** Counts the live cells around (x, y), scanning offset rows j, then columns i. */
  method NeighbourCount(a: array<bool>, width: nat, height: nat, x: int, y: int) returns (c: int)
    requires a.Length == width * height
    ensures c == Count(a[..], width, height, x, y)
    ensures 0 <= c <= 8
  {
    ghost var g := a[..];
    c := 0;
    for j := -1 to 2
      invariant c == CountBefore(g, width, height, x, y, y + j, x - 1)
    {
      for i := -1 to 2
        invariant c == CountBefore(g, width, height, x, y, y + j, x + i)
      {
        if i == 0 && j == 0 {
          continue;
        }
        var x2 := x + i;
        var y2 := y + j;
        if x2 < 0 || y2 < 0 || width <= x2 || height <= y2 {
          continue;
        }
        IndexInGrid(width, height, x2, y2);
        if a[y2 * width + x2] {
          c := c + 1;
        }
      }
    }
    CountBounds(g, width, height, x, y);
  }

  /** `a` and `b` agree on their first `n` entries. */
  predicate SamePrefix(a: seq<bool>, b: seq<bool>, n: nat)
    requires n <= |a| && n <= |b|
  {
    n == 0 || (SamePrefix(a, b, n - 1) && a[n - 1] == b[n - 1])
  }

  lemma {:induction false} SamePrefixMeansEqualSlices(a: seq<bool>, b: seq<bool>, n: nat)
    requires n <= |a| && n <= |b|
    ensures SamePrefix(a, b, n) <==> a[..n] == b[..n]
  {
    if n > 0 {
      SamePrefixMeansEqualSlices(a, b, n - 1);
      assert a[..n] == a[..n - 1] + [a[n - 1]];
      assert b[..n] == b[..n - 1] + [b[n - 1]];
      if a[..n] == b[..n] {
        assert a[..n - 1] == a[..n][..n - 1];
        assert b[..n - 1] == b[..n][..n - 1];
      }
    }
  }

  /**
   * The switch that sets cell (x, y) of the next generation in the terminal
   * check.  It has no default case, so a dead cell with two live neighbours
   * keeps the zero value of the freshly allocated buffer.
   */
  method NextState(prev: array<bool>, width: nat, height: nat, x: int, y: int) returns (v: bool)
    requires prev.Length == width * height && 0 <= x < width && 0 <= y < height
    ensures 0 <= y * width + x < prev.Length
    ensures v == Step(prev[..], width, height)[y * width + x]
  {
    StepAt(prev[..], width, height, x, y);
    var pop := NeighbourCount(prev, width, height, x, y);
    var l := y * width + x;
    v := false;
    if pop < 2 {
      v := false;
    } else if (pop == 2 || pop == 3) && prev[l] {
      v := true;
    } else if pop > 3 {
      v := false;
    } else if pop == 3 {
      v := true;
    }
  }

  /**
   * The terminal check: the step of `prev` is `wantNext` and `prev` is not a
   * fixed point.  Builds the next generation cell by cell and stops at the
   * first mismatch.
   */
  method AllOk(prev: array<bool>, wantNext: array<bool>, width: nat, height: nat) returns (ok: bool)
    requires prev.Length == width * height && wantNext.Length == width * height
    ensures ok == IsPredecessor(prev[..], wantNext[..], width, height)
  {
    var next := new bool[width * height](_ => false);
    ghost var g := prev[..];
    ghost var step := Step(g, width, height);
    ghost var want := wantNext[..];
    var allSame := true;
    for y := 0 to height
      invariant 0 <= y * width <= width * height
      invariant SamePrefix(step, want, y * width)
      invariant allSame == SamePrefix(g, want, y * width)
    {
      RowSpan(width, height, y);
      ghost var row := y * width;
      for x := 0 to width
        invariant SamePrefix(step, want, row + x)
        invariant allSame == SamePrefix(g, want, row + x)
      {
        var l := y * width + x;
        next[l] := NextState(prev, width, height, x, y);
        if wantNext[l] != next[l] {
          assert !IsPredecessor(g, want, width, height) by {
            assert step[l] != want[l];
          }
          return false;
        }
        if prev[l] != next[l] {
          allSame := false;
        }
      }
    }
    if height == 0 {
      assert prev.Length == 0;
    } else {
      RowSpan(width, height, height - 1);
    }
    assert IsPredecessor(g, want, width, height) == !allSame by {
      SamePrefixMeansEqualSlices(step, want, |g|);
      SamePrefixMeansEqualSlices(g, want, |g|);
      assert g[..|g|] == g && want[..|g|] == want && step[..|g|] == step;
    }
    return !allSame;
  }

  /**
   * The fixed-region check: every cell before `currentIndex - width - 1`, and
   * every fixed cell whose eight neighbours are all fixed, already steps to
   * its wanted value.
   */
  method FixedOk(prev: array<bool>, fixed: array<bool>, wantNext: array<bool>, currentIndex: int,
                 width: nat, height: nat) returns (ok: bool)
    requires prev.Length == width * height && fixed.Length == width * height
    requires wantNext.Length == width * height
    ensures ok == FixedRegionHolds(prev[..], fixed[..], wantNext[..], currentIndex, width, height)
  {
    ghost var step := Step(prev[..], width, height);
    ghost var mask := fixed[..];
    for y := 0 to height
      invariant 0 <= y * width <= width * height
      invariant forall l :: 0 <= l < y * width && Settled(mask, width, height, currentIndex, l)
                           ==> step[l] == wantNext[l]
    {
      RowSpan(width, height, y);
      ghost var row := y * width;
      for x := 0 to width
        invariant forall l :: 0 <= l < row + x && Settled(mask, width, height, currentIndex, l)
                             ==> step[l] == wantNext[l]
      {
        StepAt(prev[..], width, height, x, y);
        CountsAt(mask, width, height, x, y);
        var l := y * width + x;
        var isFixed := l < currentIndex - width - 1;
        if !isFixed && fixed[l] {
          var fixedCount := NeighbourCount(fixed, width, height, x, y);
          isFixed := fixedCount == 8;
        }
        assert isFixed == Settled(mask, width, height, currentIndex, l);
        if isFixed {
          var pop := NeighbourCount(prev, width, height, x, y);
          CompatibleIsRule(wantNext[l], prev[l], pop);
          if wantNext[l] {
            if (prev[l] && pop == 2) || (pop == 3) {
              continue;
            }
            return false;
          } else {
            if (!prev[l] && pop == 2) || (pop <= 1) || (pop >= 4) {
              continue;
            }
            return false;
          }
        }
      }
    }
    if height > 0 {
      RowSpan(width, height, height - 1);
    }
    return true;
  }

  /**
   * The single-cell check of the row scanner.  As in the original, the count
   * is taken at x = r, y = c while the wanted value is read at row r, column c.
   */
  method Ok(prev: array<bool>, next: array<bool>, width: nat, height: nat, r: int, c: int) returns (ok: bool)
    requires prev.Length == width * height && next.Length == width * height
    ensures ok <==> !(0 <= r < height && 0 <= c < width)
                    || (IndexInGrid(width, height, c, r);
                        Plausible(next[width * r + c], Count(prev[..], width, height, r, c)))
  {
    if r >= 0 && c >= 0 && r < height && c < width {
      IndexInGrid(width, height, c, r);
      var pop := NeighbourCount(prev, width, height, r, c);
      var n := next[width * r + c];
      if n && (pop < 2 || pop > 3) {
        return false;
      } else if !n && pop == 3 {
        return false;
      }
    }
    return true;
  }
}
