/**
 * The backtracking searches for a predecessor.  `Solve2` lists the live
 * cells of the target and hands them to `Solve2Inner`, which decides for one
 * live cell after another how it can have come alive: a live cell with two
 * or three live neighbours, or a dead cell with three.  It adds neighbours
 * one at a time, freezes a settled neighbourhood in the `fixed` mask, and
 * asks `Solve2` one generation further back before it accepts a partial
 * answer.  `Solve` is the older exhaustive row-by-row scanner.
 *
 * The three identical neighbour-adding loops of the original are the method
 * `TryNeighbours`, its three identical "fix the neighbourhood and go on"
 * blocks are `TryFixedNeighbourhood`, and its six identical "allocate a
 * fresh grid and solve one generation further back" blocks are
 * `SolveDeeper`.  The World receiver supplies only width and height, which
 * are parameters here.
 */
module Solver {
  import opened Life
  import opened GridChecks
  import opened Neighbourhood

  // ---------------------------------------------------------------------------
  // The live-cell list
  // ---------------------------------------------------------------------------

  /** The indices below `n` of the live cells of `g`, in increasing order. */
  function LiveIndices(g: seq<bool>, n: nat): seq<int>
    requires n <= |g|
  {
    if n == 0 then [] else LiveIndices(g, n - 1) + (if g[n - 1] then [n - 1] else [])
  }

  /** The list holds every live cell below `n`, and nothing else, in strictly increasing order. */
  lemma {:induction false} LiveIndicesExact(g: seq<bool>, n: nat)
    requires n <= |g|
    ensures forall k :: 0 <= k < |LiveIndices(g, n)| ==> 0 <= LiveIndices(g, n)[k] < n && g[LiveIndices(g, n)[k]]
    ensures forall k, k' :: 0 <= k < k' < |LiveIndices(g, n)| ==> LiveIndices(g, n)[k] < LiveIndices(g, n)[k']
    ensures forall l :: 0 <= l < n && g[l] ==> l in LiveIndices(g, n)
  {
    if n > 0 {
      LiveIndicesExact(g, n - 1);
    }
  }

  /** Builds the row-major list of the live cells of `next`. */
  method LiveCells(next: array<bool>, width: nat, height: nat) returns (live: seq<int>)
    requires next.Length == width * height
    ensures live == LiveIndices(next[..], next.Length)
  {
    ghost var g := next[..];
    live := [];
    for y := 0 to height
      invariant 0 <= y * width <= |g|
      invariant live == LiveIndices(g, y * width)
    {
      RowSpan(width, height, y);
      ghost var row := y * width;
      for x := 0 to width
        invariant live == LiveIndices(g, row + x)
      {
        var i := y * width + x;
        assert i == row + x;
        if next[i] {
          live := live + [i];
        }
      }
    }
    if height > 0 {
      RowSpan(width, height, height - 1);
    }
  }

  // ---------------------------------------------------------------------------
  // solve2 and solve2inner
  // ---------------------------------------------------------------------------

  /** Every entry of the live list indexes the grid. */
  predicate LiveInGrid(live: seq<int>, n: nat) {
    forall k :: 0 <= k < |live| ==> 0 <= live[k] < n
  }

  /** The outcome of a neighbour-adding loop. */
  datatype Attempt =
    | Found       // an added neighbour led to an answer
    | NoRoom      // no free neighbour was left to add
    | Exhausted   // every cursor position was tried without an answer

  /**
   * Solves one generation further back from `prev`, on a fresh grid; the
   * ancestor is discarded, only the outcome is kept.
   */
  method SolveDeeper(prev: array<bool>, width: nat, height: nat, depth: int) returns (ok: bool)
    requires prev.Length == width * height
    ensures depth <= 1 ==> ok
    ensures ok && true in prev[..] ==> HasChain(prev[..], width, height, depth - 1)
    decreases Max0(depth), 0, 1, 0, 0
  {
    var nextDepth := new bool[prev.Length](_ => false);
    ok := Solve2(nextDepth, prev, depth - 1, width, height);
    if ok && depth - 1 > 0 && true in prev[..] {
      assert IsPredecessor(nextDepth[..], prev[..], width, height) &&
             HasChain(nextDepth[..], width, height, depth - 2);
    }
  }

  /**
   * `solve2`: searches for a predecessor of `next` whose own ancestry reaches
   * `depth - 1` generations further back, writing it into `prev`.
   */
  method Solve2(prev: array<bool>, next: array<bool>, depth: int, width: nat, height: nat) returns (ok: bool)
    requires prev.Length == width * height && next.Length == width * height && prev != next
    modifies prev
    ensures depth <= 0 ==> ok && prev[..] == old(prev[..])
    ensures ok && depth > 0 ==> IsPredecessor(prev[..], next[..], width, height)
    ensures ok && depth > 0 && true in next[..] ==> HasChain(prev[..], width, height, depth - 1)
    ensures ok && true in next[..] ==> HasChain(next[..], width, height, depth)
    ensures depth > 0 && !(true in next[..]) && !(true in old(prev[..])) ==> !ok
    decreases Max0(depth), if depth <= 0 then 0 else 2, 0, 0, 0
  {
    if depth <= 0 {
      return true;
    }
    ghost var p0, g := prev[..], next[..];
    var live := LiveCells(next, width, height);
    LiveIndicesExact(g, next.Length);
    var fixed := new bool[width * height](_ => false);
    ok := Solve2Inner(prev, next, fixed, live, 0, 0, depth, width, height);
    if true in g {
      if ok {
        var l :| 0 <= l < |g| && g[l];
        assert l in live;
        ChainExtends(prev[..], g, width, height, depth);
      }
    } else {
      assert |live| == 0;
      if !(true in p0) {
        AllDeadIsNoPredecessor(p0, g, width, height);
      }
    }
  }

  /**
   * `solve2inner`: decides how live cell `live[i]` of the target came alive,
   * given the cells before it, and goes on with the rest.  `fixedUpTo` is the
   * cursor of the neighbour-adding loops.
   */
  method Solve2Inner(prev: array<bool>, next: array<bool>, fixed: array<bool>, live: seq<int>,
                     i: int, fixedUpTo: int, depth: int, width: nat, height: nat) returns (ok: bool)
    requires prev.Length == width * height && next.Length == width * height && fixed.Length == width * height
    requires prev != next && prev != fixed && next != fixed
    requires LiveInGrid(live, width * height) && 0 <= i
    modifies prev, fixed
    ensures ok ==> IsPredecessor(prev[..], next[..], width, height)
    ensures i >= |live| ==> prev[..] == old(prev[..]) && fixed[..] == old(fixed[..])
    ensures ok && i < |live| ==> HasChain(prev[..], width, height, depth - 1)
    ensures i < |live| && width > 0 && Count(old(prev[..]), width, height, live[i] % width, live[i] / width) >= 4 ==>
      !ok && prev[..] == old(prev[..]) && fixed[..] == old(fixed[..])
    ensures i < |live| && !FixedRegionHolds(old(prev[..]), old(fixed[..]), next[..], live[i], width, height) ==>
      !ok && prev[..] == old(prev[..]) && fixed[..] == old(fixed[..])
    ensures depth <= 1 && !ok ==> fixed[..] == old(fixed[..])
    decreases Max0(depth), 1, |live| - i, Max0(8 - fixedUpTo), 1
  {
    if i >= |live| {
      ok := AllOk(prev, next, width, height);
      return;
    }
    var l := live[i];
    var x, y := l % width, l / width;
    Split(width, height, l);
    var pop := NeighbourCount(prev, width, height, x, y);
    if pop >= 4 {
      return false;
    }
    var fixedOk := FixedOk(prev, fixed, next, l, width, height);
    if !fixedOk {
      return false;
    }

    var changed := -1;
    if next[l] && !fixed[l] && !prev[l] {
      prev[l] := true;
      changed := l;
    }

    if prev[l] {
      if pop <= 1 {
        var a := TryNeighbours(prev, next, fixed, live, i, fixedUpTo, depth, x, y, width, height);
        if a == Found {
          return true;
        } else if a == NoRoom {
          UndoChange(changed, prev);
          return false;
        }
      } else if pop == 2 {
        var solved := TryFixedNeighbourhood(prev, next, fixed, live, i, depth, x, y, width, height);
        if solved {
          return true;
        }
        var a := TryNeighbours(prev, next, fixed, live, i, fixedUpTo, depth, x, y, width, height);
        if a == Found {
          return true;
        } else if a == NoRoom {
          UndoChange(changed, prev);
          return false;
        }
      } else if pop == 3 {
        var solved := TryFixedNeighbourhood(prev, next, fixed, live, i, depth, x, y, width, height);
        if solved {
          return true;
        }
      }
    }

    UndoChange(changed, prev);

    if next[l] && !fixed[l] && prev[l] {
      prev[l] := false;
      changed := l;
    }

    if !prev[l] {
      if pop <= 2 {
        var a := TryNeighbours(prev, next, fixed, live, i, fixedUpTo, depth, x, y, width, height);
        if a == Found {
          return true;
        } else if a == NoRoom {
          UndoChange(changed, prev);
          return false;
        }
      } else if pop == 3 {
        var solved := TryFixedNeighbourhood(prev, next, fixed, live, i, depth, x, y, width, height);
        if solved {
          return true;
        }
      }
    }

    UndoChange(changed, prev);
    return false;
  }

  /**
   * The neighbour-adding loop of `solve2inner`: for each cursor position `z`
   * from `fixedUpTo` to 7, add the first free neighbour after the first `z`
   * and retry the same live cell with cursor `z + 1`.
   */
  method TryNeighbours(prev: array<bool>, next: array<bool>, fixed: array<bool>, live: seq<int>,
                       i: int, fixedUpTo: int, depth: int, x: int, y: int, width: nat, height: nat)
    returns (a: Attempt)
    requires prev.Length == width * height && next.Length == width * height && fixed.Length == width * height
    requires prev != next && prev != fixed && next != fixed
    requires LiveInGrid(live, width * height) && 0 <= i < |live|
    modifies prev, fixed
    ensures a == Found ==> IsPredecessor(prev[..], next[..], width, height) &&
                           HasChain(prev[..], width, height, depth - 1)
    ensures depth <= 1 && a != Found ==> fixed[..] == old(fixed[..])
    decreases Max0(depth), 1, |live| - i, Max0(8 - fixedUpTo), 0
  {
    var z := fixedUpTo;
    while z < 8
      invariant fixedUpTo <= z || fixedUpTo >= 8
      invariant depth <= 1 ==> fixed[..] == old(fixed[..])
      decreases 8 - z
    {
      var n := AddNeighbor(x, y, prev, fixed, z, width, height);
      if n == -1 {
        return NoRoom;
      }
      var solved := Solve2Inner(prev, next, fixed, live, i, z + 1, depth, width, height);
      if solved {
        var deeper := SolveDeeper(prev, width, height, depth);
        if deeper {
          PredecessorIsNotEmpty(prev[..], next[..], width, height);
          return Found;
        }
      }
      UndoAddNeighbor(prev, n);
      z := z + 1;
    }
    return Exhausted;
  }

  /**
   * The "no further changes" attempt of `solve2inner`: fix the whole
   * neighbourhood of (x, y), go on with the next live cell, and undo the
   * fixing when that leads nowhere.
   */
  method TryFixedNeighbourhood(prev: array<bool>, next: array<bool>, fixed: array<bool>, live: seq<int>,
                               i: int, depth: int, x: int, y: int, width: nat, height: nat)
    returns (solved: bool)
    requires prev.Length == width * height && next.Length == width * height && fixed.Length == width * height
    requires prev != next && prev != fixed && next != fixed
    requires LiveInGrid(live, width * height) && 0 <= i < |live|
    modifies prev, fixed
    ensures solved ==> IsPredecessor(prev[..], next[..], width, height) &&
                       HasChain(prev[..], width, height, depth - 1)
    ensures depth <= 1 && !solved ==> fixed[..] == old(fixed[..])
    decreases Max0(depth), 1, |live| - i, 0, 0
  {
    ghost var f0 := fixed[..];
    var changes := SetFixedNeighborhood(x, y, fixed, width, height);
    NewlyFixedMeaning(f0, Neighbours(width, height, x, y), 8);
    FixThenUndoRestores(f0, Neighbours(width, height, x, y), 8);
    var s := Solve2Inner(prev, next, fixed, live, i + 1, 0, depth, width, height);
    if s {
      var deeper := SolveDeeper(prev, width, height, depth);
      if deeper {
        PredecessorIsNotEmpty(prev[..], next[..], width, height);
        return true;
      }
    }
    UndoFixedNeighborhood(fixed, changes);
    return false;
  }

  // ---------------------------------------------------------------------------
  // solve: the row-by-row scanner
  // ---------------------------------------------------------------------------

  /**
   * `solve`: tries cell (r, c) dead, then alive, checking the completed cell
   * diagonally above-left with `ok`, and goes on with the next cell in
   * row-major order; at the end of the grid it runs the terminal check.
   */
  method Solve(prev: array<bool>, next: array<bool>, width: nat, height: nat, r: int, c: int) returns (ok: bool)
    requires prev.Length == width * height && next.Length == width * height && prev != next
    requires 0 <= r && 0 <= c && (r < height ==> c < width)
    modifies prev
    ensures ok ==> IsPredecessor(prev[..], next[..], width, height)
    ensures r < height ==> 0 <= r * width + c <= prev.Length
    ensures forall k :: 0 <= k < prev.Length && (r < height ==> k < r * width + c) ==> prev[k] == old(prev[k])
    decreases height - r, width - c
  {
    if r >= height {
      ok := AllOk(prev, next, width, height);
      return;
    }
    IndexInGrid(width, height, c, r);
    var l := r * width + c;
    prev[l] := false;

    var pr, pc := r - 1, c - 1;
    var cellOk := Ok(prev, next, width, height, pr, pc);

    var nr, nc := r, c + 1;
    if nc >= width {
      nr, nc := r + 1, 0;
    }
    assert nr < height ==> l < nr * width + nc by {
      if nc == 0 {
        RowSpan(width, height, r);
      }
    }

    if cellOk {
      var solved := Solve(prev, next, width, height, nr, nc);
      if solved {
        return solved;
      }
    }

    prev[l] := true;
    cellOk := Ok(prev, next, width, height, pr, pc);

    if cellOk {
      var solved := Solve(prev, next, width, height, nr, nc);
      if solved {
        return solved;
      }
    }

    prev[l] := false;
    return false;
  }
}
