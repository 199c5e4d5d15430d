/**
 * The game state: the current grid, its dimensions and the two mode flags.
 * A tick does nothing while paused, steps forward in forward mode, and
 * otherwise replaces the grid by a predecessor when the search finds one.
 */
module WorldState {
  import opened Life
  import opened GridChecks
  import opened Solver

  /** How many generations back a reverse tick searches. */
  const SearchDepth := 1

  /**
   * The loop of `gameOfLife`: fills a fresh buffer row by row with the
   * next generation of `a`, using the same switch as the terminal check.
   */
  method NextGeneration(a: array<bool>, width: nat, height: nat) returns (next: array<bool>)
    requires a.Length == width * height
    ensures fresh(next) && next[..] == Step(a[..], width, height)
  {
    ghost var step := Step(a[..], width, height);
    next := new bool[width * height](_ => false);
    for y := 0 to height
      invariant 0 <= y * width <= width * height
      invariant forall k :: 0 <= k < y * width ==> next[k] == step[k]
    {
      RowSpan(width, height, y);
      ghost var row := y * width;
      for x := 0 to width
        invariant forall k :: 0 <= k < row + x ==> next[k] == step[k]
      {
        var l := y * width + x;
        next[l] := NextState(a, width, height, x, y);
      }
    }
    if height > 0 {
      RowSpan(width, height, height - 1);
    }
  }

  class World {
    var area: array<bool>
    const width: nat
    const height: nat
    var paused: bool
    var forward: bool

    /** The grid has one cell per position. */
    ghost predicate Valid()
      reads this
    {
      area.Length == width * height
    }

    /**
     * `NewWorld`: an all-dead grid, paused, in reverse mode.  Its count of
     * random initial cells feeds only the disabled random start, so it is
     * not a parameter here.
     */
    constructor (width: nat, height: nat)
      ensures Valid()
      ensures this.width == width && this.height == height
      ensures fresh(area) && !(true in area[..])
      ensures paused && !forward
    {
      this.width := width;
      this.height := height;
      area := new bool[width * height](_ => false);
      paused := true;
      forward := false;
    }

    /** `gameOfLife`: replaces the grid by a fresh buffer holding its next generation. */
    method GameOfLife()
      requires Valid()
      modifies this
      ensures Valid() && fresh(area)
      ensures area[..] == Step(old(area[..]), width, height)
      ensures paused == old(paused) && forward == old(forward)
    {
      area := NextGeneration(area, width, height);
    }

    /**
     * `reverseGameOfLife`: searches for a predecessor of the grid, starting
     * from an all-dead one, and installs it only when the search succeeds.
     * An all-dead grid has none, so it stays in place.
     */
    method ReverseGameOfLife()
      requires Valid()
      modifies this
      ensures Valid()
      ensures area == old(area) || (fresh(area) && IsPredecessor(area[..], old(area[..]), width, height))
      ensures !(true in old(area[..])) ==> area == old(area)
      ensures paused == old(paused) && forward == old(forward)
    {
      var prev := new bool[width * height](_ => false);
      var solved := Solve2(prev, area, SearchDepth, width, height);
      if solved {
        area := prev;
      }
    }

    /** `Update`: one tick of the state machine. */
    method Update()
      requires Valid()
      modifies this
      ensures Valid()
      ensures paused == old(paused) && forward == old(forward)
      ensures paused ==> area == old(area)
      ensures !paused && forward ==> fresh(area) && area[..] == Step(old(area[..]), width, height)
      ensures !paused && !forward ==>
        area == old(area) || (fresh(area) && IsPredecessor(area[..], old(area[..]), width, height))
    {
      if paused {
        return;
      }
      if forward {
        GameOfLife();
      } else {
        ReverseGameOfLife();
      }
    }
  }
}
