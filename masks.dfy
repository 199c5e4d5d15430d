/**
 * The neighbourhood edits of the backtracking solver.  Both `addNeighbor` and
 * `fixNeighborhoodUpTo` walk the in-bounds neighbours of a cell in the same
 * order, column xi = x - 1 .. x + 1 outside, row yi = y - 1 .. y + 1 inside,
 * skipping the cell itself; `Neighbours` is that list of indices.  Each
 * method is proved equal to a function over that list, and the functions'
 * meaning (which cell is picked, which cells get fixed, that undoing restores
 * the mask) is proved as lemmas.  The original methods use their World
 * receiver only for its width and height, which are parameters here.
 */
module Neighbourhood {
  import opened Life

  // ---------------------------------------------------------------------------
  // The neighbour list
  // ---------------------------------------------------------------------------

  /** Every entry of `nbs` indexes a grid of `n` cells. */
  predicate InGrid(nbs: seq<int>, n: nat) {
    forall k :: 0 <= k < |nbs| ==> 0 <= nbs[k] < n
  }

  /** Position (xi, yi) is the cell (x, y) itself or lies outside the grid. */
  predicate PassedOver(w: nat, h: nat, x: int, y: int, xi: int, yi: int) {
    (xi == x && yi == y) || xi < 0 || yi < 0 || xi >= w || yi >= h
  }

  /** Position (xi, yi) comes at or after column `xc`, row `yc` in the scan order. */
  predicate NotBefore(xi: int, yi: int, xc: int, yc: int) {
    xi > xc || (xi == xc && yi >= yc)
  }

  /**
   * The in-bounds neighbours of (x, y) that the scan still visits when it is
   * at column `xi`, row `yi`, in visiting order.
   */
  function Rest(w: nat, h: nat, x: int, y: int, xi: int, yi: int): (r: seq<int>)
    requires x - 1 <= xi <= x + 2 && y - 1 <= yi <= y + 2
    ensures InGrid(r, w * h)
    decreases x + 2 - xi, y + 2 - yi
  {
    if xi > x + 1 then []
    else if yi > y + 1 then Rest(w, h, x, y, xi + 1, y - 1)
    else if PassedOver(w, h, x, y, xi, yi) then Rest(w, h, x, y, xi, yi + 1)
    else IndexInGrid(w, h, xi, yi); [yi * w + xi] + Rest(w, h, x, y, xi, yi + 1)
  }

  lemma {:induction false} RestLength(w: nat, h: nat, x: int, y: int, xi: int, yi: int)
    requires x - 1 <= xi <= x + 2 && y - 1 <= yi <= y + 2
    ensures |Rest(w, h, x, y, xi, yi)| <=
      if xi > x + 1 then 0 else 3 * (x + 1 - xi) + (y + 2 - yi) - (if NotBefore(x, y, xi, yi) then 1 else 0)
    decreases x + 2 - xi, y + 2 - yi
  {
    if xi > x + 1 {
    } else if yi > y + 1 {
      RestLength(w, h, x, y, xi + 1, y - 1);
    } else {
      RestLength(w, h, x, y, xi, yi + 1);
    }
  }

  /** Index `e` is an in-bounds cell adjacent to (x, y). */
  predicate IsNeighbour(w: nat, h: nat, x: int, y: int, e: int) {
    0 <= e < w * h && x - 1 <= e % w <= x + 1 && y - 1 <= e / w <= y + 1 && !(e % w == x && e / w == y)
  }

  /** The rest of the scan holds exactly the neighbours at or after the scan position. */
  lemma {:induction false} RestExact(w: nat, h: nat, x: int, y: int, xi: int, yi: int)
    requires x - 1 <= xi <= x + 2 && y - 1 <= yi <= y + 2
    ensures forall e :: e in Rest(w, h, x, y, xi, yi) <==>
      IsNeighbour(w, h, x, y, e) && NotBefore(e % w, e / w, xi, yi)
    decreases x + 2 - xi, y + 2 - yi
  {
    if xi > x + 1 {
    } else if yi > y + 1 {
      RestExact(w, h, x, y, xi + 1, y - 1);
    } else {
      RestExact(w, h, x, y, xi, yi + 1);
      forall e | IsNeighbour(w, h, x, y, e) && e % w == xi && e / w == yi
        ensures !PassedOver(w, h, x, y, xi, yi) && e == yi * w + xi
      {
        Split(w, h, e);
      }
      if !PassedOver(w, h, x, y, xi, yi) {
        IndexInGrid(w, h, xi, yi);
        Coords(w, xi, yi);
      }
    }
  }

  /**
   * The in-bounds neighbours of (x, y) in the order the solver visits them:
   * exactly the in-bounds cells adjacent to (x, y), at most eight of them.
   */
  function Neighbours(w: nat, h: nat, x: int, y: int): (r: seq<int>)
    ensures |r| <= 8 && InGrid(r, w * h)
    ensures forall e :: e in r <==> IsNeighbour(w, h, x, y, e)
  {
    RestExact(w, h, x, y, x - 1, y - 1);
    RestLength(w, h, x, y, x - 1, y - 1);
    Rest(w, h, x, y, x - 1, y - 1)
  }

  // ---------------------------------------------------------------------------
  // addNeighbor
  // ---------------------------------------------------------------------------

  function Max0(n: int): nat {
    if n < 0 then 0 else n
  }

  /** The cell at position `k` of the list is fixed or already live. */
  predicate Occupied(nbs: seq<int>, ar: seq<bool>, fixed: seq<bool>, k: int)
    requires |ar| == |fixed| && InGrid(nbs, |ar|) && 0 <= k < |nbs|
  {
    fixed[nbs[k]] || ar[nbs[k]]
  }

  /**
   * The cell `addNeighbor` picks: after passing over the first `skip`
   * entries, the first one neither fixed nor live; -1 when there is none.
   */
  function FirstFree(nbs: seq<int>, ar: seq<bool>, fixed: seq<bool>, skip: int): (r: int)
    requires |ar| == |fixed| && InGrid(nbs, |ar|)
    ensures r == -1 || 0 <= r < |ar|
    decreases |nbs|
  {
    if |nbs| == 0 then -1
    else if skip > 0 then FirstFree(nbs[1..], ar, fixed, skip - 1)
    else if fixed[nbs[0]] || ar[nbs[0]] then FirstFree(nbs[1..], ar, fixed, skip)
    else nbs[0]
  }

  lemma FirstFreeCons(e: int, t: seq<int>, ar: seq<bool>, fixed: seq<bool>, skip: int)
    requires |ar| == |fixed| && 0 <= e < |ar| && InGrid(t, |ar|)
    ensures InGrid([e] + t, |ar|)
    ensures FirstFree([e] + t, ar, fixed, skip) ==
      if skip > 0 then FirstFree(t, ar, fixed, skip - 1)
      else if fixed[e] || ar[e] then FirstFree(t, ar, fixed, skip)
      else e
  {
    assert ([e] + t)[0] == e;
    assert ([e] + t)[1..] == t;
  }

  /**
   * What `addNeighbor` returns: -1 exactly when every entry from position
   * `skip` on is fixed or live, and otherwise the first entry from there on
   * that is neither.
   */
  lemma {:induction false} FirstFreeMeaning(nbs: seq<int>, ar: seq<bool>, fixed: seq<bool>, skip: int)
    requires |ar| == |fixed| && InGrid(nbs, |ar|)
    ensures FirstFree(nbs, ar, fixed, skip) == -1 <==>
      forall k :: Max0(skip) <= k < |nbs| ==> Occupied(nbs, ar, fixed, k)
    ensures FirstFree(nbs, ar, fixed, skip) != -1 ==>
      exists k :: Max0(skip) <= k < |nbs| && nbs[k] == FirstFree(nbs, ar, fixed, skip) &&
        !Occupied(nbs, ar, fixed, k) && forall j :: Max0(skip) <= j < k ==> Occupied(nbs, ar, fixed, j)
    decreases |nbs|
  {
    if |nbs| > 0 {
      var t := nbs[1..];
      var s := if skip > 0 then skip - 1 else skip;
      FirstFreeMeaning(t, ar, fixed, s);
      assert Max0(skip) == if skip > 0 then Max0(s) + 1 else 0;
      forall k | 1 <= k < |nbs| ensures Occupied(nbs, ar, fixed, k) == Occupied(t, ar, fixed, k - 1) {
        assert nbs[k] == t[k - 1];
      }
      var r := FirstFree(nbs, ar, fixed, skip);
      if skip <= 0 && !Occupied(nbs, ar, fixed, 0) {
        assert r == nbs[0];
      } else {
        assert r == FirstFree(t, ar, fixed, s);
        if r == -1 {
          forall k | Max0(skip) <= k < |nbs| ensures Occupied(nbs, ar, fixed, k) {
            if k > 0 {
              assert Occupied(t, ar, fixed, k - 1);
            }
          }
        } else {
          var k' :| Max0(s) <= k' < |t| && t[k'] == r && !Occupied(t, ar, fixed, k') &&
            forall j :: Max0(s) <= j < k' ==> Occupied(t, ar, fixed, j);
          assert nbs[k' + 1] == r && !Occupied(nbs, ar, fixed, k' + 1);
          forall j | Max0(skip) <= j < k' + 1 ensures Occupied(nbs, ar, fixed, j) {
            if j > 0 {
              assert Occupied(t, ar, fixed, j - 1);
            }
          }
        }
      }
    }
  }

  /**
   * The scan of `addNeighbor` from column `xi`, row `yi`, with `skip`
   * in-bounds neighbours still to pass over.
   */
  function AddScan(w: nat, h: nat, x: int, y: int, ar: seq<bool>, fixed: seq<bool>, xi: int, yi: int, skip: int): int
    requires |ar| == w * h && |fixed| == w * h
    requires x - 1 <= xi <= x + 2 && y - 1 <= yi <= y + 2
    decreases x + 2 - xi, y + 2 - yi
  {
    if xi > x + 1 then -1
    else if yi > y + 1 then AddScan(w, h, x, y, ar, fixed, xi + 1, y - 1, skip)
    else if PassedOver(w, h, x, y, xi, yi) then AddScan(w, h, x, y, ar, fixed, xi, yi + 1, skip)
    else if skip > 0 then AddScan(w, h, x, y, ar, fixed, xi, yi + 1, skip - 1)
    else
      IndexInGrid(w, h, xi, yi);
      if fixed[yi * w + xi] || ar[yi * w + xi] then AddScan(w, h, x, y, ar, fixed, xi, yi + 1, skip)
      else yi * w + xi
  }

  lemma AddScanVisit(w: nat, h: nat, x: int, y: int, ar: seq<bool>, fixed: seq<bool>, xi: int, yi: int, skip: int)
    requires |ar| == w * h && |fixed| == w * h
    requires x - 1 <= xi <= x + 1 && y - 1 <= yi <= y + 1 && !PassedOver(w, h, x, y, xi, yi)
    requires var s := if skip > 0 then skip - 1 else skip;
      AddScan(w, h, x, y, ar, fixed, xi, yi + 1, s) == FirstFree(Rest(w, h, x, y, xi, yi + 1), ar, fixed, s)
    ensures AddScan(w, h, x, y, ar, fixed, xi, yi, skip) == FirstFree(Rest(w, h, x, y, xi, yi), ar, fixed, skip)
  {
    IndexInGrid(w, h, xi, yi);
    FirstFreeCons(yi * w + xi, Rest(w, h, x, y, xi, yi + 1), ar, fixed, skip);
  }

  /** The scan finds the first free entry of the list still to visit. */
  lemma {:induction false} AddScanIsFirstFree(w: nat, h: nat, x: int, y: int, ar: seq<bool>, fixed: seq<bool>,
                                              xi: int, yi: int, skip: int)
    requires |ar| == w * h && |fixed| == w * h
    requires x - 1 <= xi <= x + 2 && y - 1 <= yi <= y + 2
    ensures AddScan(w, h, x, y, ar, fixed, xi, yi, skip) == FirstFree(Rest(w, h, x, y, xi, yi), ar, fixed, skip)
    decreases x + 2 - xi, y + 2 - yi
  {
    if xi > x + 1 {
    } else if yi > y + 1 {
      AddScanIsFirstFree(w, h, x, y, ar, fixed, xi + 1, y - 1, skip);
    } else if PassedOver(w, h, x, y, xi, yi) {
      AddScanIsFirstFree(w, h, x, y, ar, fixed, xi, yi + 1, skip);
    } else {
      AddScanIsFirstFree(w, h, x, y, ar, fixed, xi, yi + 1, if skip > 0 then skip - 1 else skip);
      AddScanVisit(w, h, x, y, ar, fixed, xi, yi, skip);
    }
  }

  /**
   * `addNeighbor`: makes live the first free neighbour of (x, y) after the
   * first `fixedUpTo` in-bounds ones and returns its index, or returns -1
   * and changes nothing.
   */
  method AddNeighbor(x: int, y: int, ar: array<bool>, fixed: array<bool>, fixedUpTo: int,
                     width: nat, height: nat) returns (n: int)
    requires ar.Length == width * height && fixed.Length == width * height && ar != fixed
    modifies ar
    ensures n == FirstFree(Neighbours(width, height, x, y), old(ar[..]), fixed[..], fixedUpTo)
    ensures ar[..] == if n == -1 then old(ar[..]) else old(ar[..])[n := true]
  {
    ghost var a0 := ar[..];
    ghost var want := AddScan(width, height, x, y, a0, fixed[..], x - 1, y - 1, fixedUpTo);
    assert want == FirstFree(Neighbours(width, height, x, y), a0, fixed[..], fixedUpTo) by {
      AddScanIsFirstFree(width, height, x, y, a0, fixed[..], x - 1, y - 1, fixedUpTo);
    }
    var ind := 0;
    for xi := x - 1 to x + 2
      invariant ar[..] == a0
      invariant want == AddScan(width, height, x, y, a0, fixed[..], xi, y - 1, fixedUpTo - ind)
    {
      for yi := y - 1 to y + 2
        invariant ar[..] == a0
        invariant want == AddScan(width, height, x, y, a0, fixed[..], xi, yi, fixedUpTo - ind)
      {
        if (xi == x && yi == y) || xi < 0 || yi < 0 || xi >= width || yi >= height {
          continue;
        }
        if ind < fixedUpTo {
          ind := ind + 1;
          continue;
        }
        IndexInGrid(width, height, xi, yi);
        var l := yi * width + xi;
        if fixed[l] {
          continue;
        }
        if ar[l] {
          continue;
        }
        ar[l] := true;
        return l;
      }
    }
    return -1;
  }

  /**
   * What `addNeighbor` adds is a dead, unfixed neighbour of (x, y); it finds
   * none exactly when every neighbour past the first `skip` is live or fixed.
   */
  lemma AddedIsFreeNeighbour(w: nat, h: nat, x: int, y: int, ar: seq<bool>, fixed: seq<bool>, skip: int)
    requires |ar| == w * h && |fixed| == w * h
    ensures var r := FirstFree(Neighbours(w, h, x, y), ar, fixed, skip);
      r != -1 ==> IsNeighbour(w, h, x, y, r) && !ar[r] && !fixed[r]
    ensures var nbs := Neighbours(w, h, x, y);
      FirstFree(nbs, ar, fixed, skip) == -1 <==> forall k :: Max0(skip) <= k < |nbs| ==> ar[nbs[k]] || fixed[nbs[k]]
  {
    var nbs := Neighbours(w, h, x, y);
    FirstFreeMeaning(nbs, ar, fixed, skip);
    var r := FirstFree(nbs, ar, fixed, skip);
    if r != -1 {
      var k :| Max0(skip) <= k < |nbs| && nbs[k] == r && !Occupied(nbs, ar, fixed, k);
      assert r in nbs && !ar[nbs[k]] && !fixed[nbs[k]];
    } else {
      forall k | Max0(skip) <= k < |nbs|
        ensures ar[nbs[k]] || fixed[nbs[k]]
      {
        assert Occupied(nbs, ar, fixed, k);
      }
    }
  }

  /** `undoAddNeighbor`: clears cell `l` again. */
  method UndoAddNeighbor(ar: array<bool>, l: int)
    requires 0 <= l < ar.Length
    modifies ar
    ensures ar[..] == old(ar[..])[l := false]
  {
    ar[l] := false;
  }

  /** Clearing the cell `addNeighbor` picked gives back the grid it started from. */
  lemma AddThenUndoRestores(nbs: seq<int>, ar: seq<bool>, fixed: seq<bool>, skip: int)
    requires |ar| == |fixed| && InGrid(nbs, |ar|)
    ensures FirstFree(nbs, ar, fixed, skip) != -1 ==>
      ar[FirstFree(nbs, ar, fixed, skip) := true][FirstFree(nbs, ar, fixed, skip) := false] == ar
  {
    FirstFreeMeaning(nbs, ar, fixed, skip);
  }

  /** `undoChange`: flips cell `l` back, unless `l` is -1 (nothing was changed). */
  method UndoChange(l: int, prev: array<bool>)
    requires l == -1 || 0 <= l < prev.Length
    modifies prev
    ensures prev[..] == if l == -1 then old(prev[..]) else old(prev[..])[l := !old(prev[l])]
  {
    if l == -1 {
      return;
    }
    prev[l] := !prev[l];
  }

  // ---------------------------------------------------------------------------
  // fixNeighborhoodUpTo, setFixedNeighborhood, undoFixedNeighborhood
  // ---------------------------------------------------------------------------

  /** The mask after fixing the first `budget` entries of `nbs`. */
  function FixList(f: seq<bool>, nbs: seq<int>, budget: int): (r: seq<bool>)
    requires InGrid(nbs, |f|)
    ensures |r| == |f|
    decreases |nbs|
  {
    if |nbs| == 0 || budget <= 0 then f else FixList(f[nbs[0] := true], nbs[1..], budget - 1)
  }

  /** The cells among the first `budget` entries of `nbs` that were not fixed before. */
  function NewlyFixed(f: seq<bool>, nbs: seq<int>, budget: int): (r: set<int>)
    requires InGrid(nbs, |f|)
    decreases |nbs|
  {
    if |nbs| == 0 || budget <= 0 then {}
    else (if f[nbs[0]] then {} else {nbs[0]}) + NewlyFixed(f[nbs[0] := true], nbs[1..], budget - 1)
  }

  /** The mask with every cell of `s` cleared. */
  function Unfix(g: seq<bool>, s: set<int>): (r: seq<bool>)
    ensures |r| == |g|
    ensures forall j :: 0 <= j < |g| ==> r[j] == (g[j] && j !in s)
  {
    seq(|g|, j requires 0 <= j < |g| => g[j] && j !in s)
  }

  /** The first `budget` entries of `nbs` (none when `budget` is not positive). */
  function Take(nbs: seq<int>, budget: int): seq<int> {
    if budget <= 0 then [] else if budget >= |nbs| then nbs else nbs[..budget]
  }

  lemma FixCons(e: int, t: seq<int>, f: seq<bool>, budget: int)
    requires 0 <= e < |f| && InGrid(t, |f|)
    ensures InGrid([e] + t, |f|)
    ensures FixList(f, [e] + t, budget) == if budget > 0 then FixList(f[e := true], t, budget - 1) else f
    ensures NewlyFixed(f, [e] + t, budget) ==
      if budget > 0 then (if f[e] then {} else {e}) + NewlyFixed(f[e := true], t, budget - 1) else {}
    ensures f[e] ==> f[e := true] == f
  {
    assert ([e] + t)[0] == e;
    assert ([e] + t)[1..] == t;
  }

  lemma TakeCons(nbs: seq<int>, budget: int)
    requires |nbs| > 0 && budget > 0
    ensures forall j :: j in Take(nbs, budget) <==> j == nbs[0] || j in Take(nbs[1..], budget - 1)
  {
    if budget < |nbs| {
      assert nbs[..budget] == [nbs[0]] + nbs[1..][..budget - 1];
    } else {
      assert nbs == [nbs[0]] + nbs[1..];
    }
  }

  /** Fixing sets exactly the cells among the first `budget` entries and keeps the others. */
  lemma {:induction false} FixListMeaning(f: seq<bool>, nbs: seq<int>, budget: int)
    requires InGrid(nbs, |f|)
    ensures forall j :: 0 <= j < |f| ==> FixList(f, nbs, budget)[j] == (f[j] || j in Take(nbs, budget))
    decreases |nbs|
  {
    if |nbs| > 0 && budget > 0 {
      FixListMeaning(f[nbs[0] := true], nbs[1..], budget - 1);
      TakeCons(nbs, budget);
    }
  }

  /** The change set holds exactly the cells among the first `budget` entries that were not fixed. */
  lemma {:induction false} NewlyFixedMeaning(f: seq<bool>, nbs: seq<int>, budget: int)
    requires InGrid(nbs, |f|)
    ensures forall j :: j in NewlyFixed(f, nbs, budget) <==> j in Take(nbs, budget) && 0 <= j < |f| && !f[j]
    decreases |nbs|
  {
    if |nbs| > 0 && budget > 0 {
      NewlyFixedMeaning(f[nbs[0] := true], nbs[1..], budget - 1);
      TakeCons(nbs, budget);
    }
  }

  /** Undoing the change set of a fixing gives back the mask it started from. */
  lemma FixThenUndoRestores(f: seq<bool>, nbs: seq<int>, budget: int)
    requires InGrid(nbs, |f|)
    ensures Unfix(FixList(f, nbs, budget), NewlyFixed(f, nbs, budget)) == f
  {
    FixListMeaning(f, nbs, budget);
    NewlyFixedMeaning(f, nbs, budget);
  }

  /**
   * The scan of `fixNeighborhoodUpTo` from column `xi`, row `yi`, with
   * `budget` in-bounds neighbours still to fix: the resulting mask, and the
   * cells it newly fixes.
   */
  function FixScan(w: nat, h: nat, x: int, y: int, f: seq<bool>, xi: int, yi: int, budget: int): (r: seq<bool>)
    requires |f| == w * h
    requires x - 1 <= xi <= x + 2 && y - 1 <= yi <= y + 2
    ensures |r| == |f|
    decreases x + 2 - xi, y + 2 - yi
  {
    if xi > x + 1 then f
    else if yi > y + 1 then FixScan(w, h, x, y, f, xi + 1, y - 1, budget)
    else if PassedOver(w, h, x, y, xi, yi) then FixScan(w, h, x, y, f, xi, yi + 1, budget)
    else
      IndexInGrid(w, h, xi, yi);
      var l := yi * w + xi;
      FixScan(w, h, x, y, if budget > 0 && !f[l] then f[l := true] else f, xi, yi + 1, budget - 1)
  }

  function ChangeScan(w: nat, h: nat, x: int, y: int, f: seq<bool>, xi: int, yi: int, budget: int): set<int>
    requires |f| == w * h
    requires x - 1 <= xi <= x + 2 && y - 1 <= yi <= y + 2
    decreases x + 2 - xi, y + 2 - yi
  {
    if xi > x + 1 then {}
    else if yi > y + 1 then ChangeScan(w, h, x, y, f, xi + 1, y - 1, budget)
    else if PassedOver(w, h, x, y, xi, yi) then ChangeScan(w, h, x, y, f, xi, yi + 1, budget)
    else
      IndexInGrid(w, h, xi, yi);
      var l := yi * w + xi;
      if budget > 0 && !f[l] then {l} + ChangeScan(w, h, x, y, f[l := true], xi, yi + 1, budget - 1)
      else ChangeScan(w, h, x, y, f, xi, yi + 1, budget - 1)
  }

  /** A scan with nothing left to fix changes nothing. */
  lemma {:induction false} FixScanBudgetSpent(w: nat, h: nat, x: int, y: int, f: seq<bool>, xi: int, yi: int, budget: int)
    requires |f| == w * h && budget <= 0
    requires x - 1 <= xi <= x + 2 && y - 1 <= yi <= y + 2
    ensures FixScan(w, h, x, y, f, xi, yi, budget) == f
    ensures ChangeScan(w, h, x, y, f, xi, yi, budget) == {}
    decreases x + 2 - xi, y + 2 - yi
  {
    if xi > x + 1 {
    } else if yi > y + 1 {
      FixScanBudgetSpent(w, h, x, y, f, xi + 1, y - 1, budget);
    } else {
      FixScanBudgetSpent(w, h, x, y, f, xi, yi + 1, budget - 1);
      FixScanBudgetSpent(w, h, x, y, f, xi, yi + 1, budget);
    }
  }

  lemma FixScanVisit(w: nat, h: nat, x: int, y: int, f: seq<bool>, xi: int, yi: int, budget: int)
    requires |f| == w * h
    requires x - 1 <= xi <= x + 1 && y - 1 <= yi <= y + 1 && !PassedOver(w, h, x, y, xi, yi)
    requires 0 <= yi * w + xi < w * h
    requires var g := if budget > 0 then f[yi * w + xi := true] else f;
      FixScan(w, h, x, y, g, xi, yi + 1, budget - 1) == FixList(g, Rest(w, h, x, y, xi, yi + 1), budget - 1) &&
      ChangeScan(w, h, x, y, g, xi, yi + 1, budget - 1) == NewlyFixed(g, Rest(w, h, x, y, xi, yi + 1), budget - 1)
    ensures FixScan(w, h, x, y, f, xi, yi, budget) == FixList(f, Rest(w, h, x, y, xi, yi), budget)
    ensures ChangeScan(w, h, x, y, f, xi, yi, budget) == NewlyFixed(f, Rest(w, h, x, y, xi, yi), budget)
  {
    var l := yi * w + xi;
    FixCons(l, Rest(w, h, x, y, xi, yi + 1), f, budget);
    if budget <= 0 {
      FixScanBudgetSpent(w, h, x, y, f, xi, yi + 1, budget - 1);
    }
  }

  /** The scan fixes the first `budget` entries of the list still to visit. */
  lemma {:induction false} FixScanIsFixList(w: nat, h: nat, x: int, y: int, f: seq<bool>, xi: int, yi: int, budget: int)
    requires |f| == w * h
    requires x - 1 <= xi <= x + 2 && y - 1 <= yi <= y + 2
    ensures FixScan(w, h, x, y, f, xi, yi, budget) == FixList(f, Rest(w, h, x, y, xi, yi), budget)
    ensures ChangeScan(w, h, x, y, f, xi, yi, budget) == NewlyFixed(f, Rest(w, h, x, y, xi, yi), budget)
    decreases x + 2 - xi, y + 2 - yi
  {
    if xi > x + 1 {
    } else if yi > y + 1 {
      FixScanIsFixList(w, h, x, y, f, xi + 1, y - 1, budget);
    } else if PassedOver(w, h, x, y, xi, yi) {
      FixScanIsFixList(w, h, x, y, f, xi, yi + 1, budget);
    } else {
      IndexInGrid(w, h, xi, yi);
      FixScanIsFixList(w, h, x, y, if budget > 0 then f[yi * w + xi := true] else f, xi, yi + 1, budget - 1);
      FixScanVisit(w, h, x, y, f, xi, yi, budget);
    }
  }

  /**
   * `fixNeighborhoodUpTo`: fixes the first `i` in-bounds neighbours of
   * (x, y) and returns the set of those that were not fixed before.
   */
  method FixNeighborhoodUpTo(x: int, y: int, i: int, fixed: array<bool>, width: nat, height: nat)
    returns (changes: set<int>)
    requires fixed.Length == width * height
    modifies fixed
    ensures fixed[..] == FixList(old(fixed[..]), Neighbours(width, height, x, y), i)
    ensures changes == NewlyFixed(old(fixed[..]), Neighbours(width, height, x, y), i)
  {
    ghost var f0 := fixed[..];
    ghost var wantMask := FixScan(width, height, x, y, f0, x - 1, y - 1, i);
    ghost var wantChanges := ChangeScan(width, height, x, y, f0, x - 1, y - 1, i);
    assert wantMask == FixList(f0, Neighbours(width, height, x, y), i) &&
           wantChanges == NewlyFixed(f0, Neighbours(width, height, x, y), i) by {
      FixScanIsFixList(width, height, x, y, f0, x - 1, y - 1, i);
    }
    changes := {};
    var ind := 0;
    for xi := x - 1 to x + 2
      invariant wantMask == FixScan(width, height, x, y, fixed[..], xi, y - 1, i - ind)
      invariant wantChanges == changes + ChangeScan(width, height, x, y, fixed[..], xi, y - 1, i - ind)
    {
      for yi := y - 1 to y + 2
        invariant wantMask == FixScan(width, height, x, y, fixed[..], xi, yi, i - ind)
        invariant wantChanges == changes + ChangeScan(width, height, x, y, fixed[..], xi, yi, i - ind)
      {
        if (xi == x && yi == y) || xi < 0 || yi < 0 || xi >= width || yi >= height {
          continue;
        }
        IndexInGrid(width, height, xi, yi);
        var l := yi * width + xi;
        if ind < i && !fixed[l] {
          fixed[l] := true;
          changes := changes + {l};
        }
        ind := ind + 1;
      }
    }
  }

  /** `setFixedNeighborhood`: fixes every in-bounds neighbour of (x, y). */
  method SetFixedNeighborhood(x: int, y: int, fixed: array<bool>, width: nat, height: nat)
    returns (changes: set<int>)
    requires fixed.Length == width * height
    modifies fixed
    ensures fixed[..] == FixList(old(fixed[..]), Neighbours(width, height, x, y), 8)
    ensures changes == NewlyFixed(old(fixed[..]), Neighbours(width, height, x, y), 8)
  {
    changes := FixNeighborhoodUpTo(x, y, 8, fixed, width, height);
  }

  /**
   * Fixing eight entries fixes the whole neighbourhood and nothing else, and
   * reports exactly the neighbours that were not fixed before.
   */
  lemma FixAllNeighbours(f: seq<bool>, w: nat, h: nat, x: int, y: int)
    requires |f| == w * h
    ensures forall j :: 0 <= j < |f| ==>
      FixList(f, Neighbours(w, h, x, y), 8)[j] == (f[j] || IsNeighbour(w, h, x, y, j))
    ensures forall j :: j in NewlyFixed(f, Neighbours(w, h, x, y), 8) <==>
      IsNeighbour(w, h, x, y, j) && !f[j]
  {
    var nbs := Neighbours(w, h, x, y);
    assert Take(nbs, 8) == nbs;
    FixListMeaning(f, nbs, 8);
    NewlyFixedMeaning(f, nbs, 8);
  }

  /**
   * The one unit test of the original: on a 3 x 3 grid whose cell 2 is
   * already fixed, fixing the neighbourhood of the centre does not report 2
   * (nor the centre itself).
   */
  lemma AlreadyFixedIsNotReported(f: seq<bool>)
    requires |f| == 9 && f[2]
    ensures 2 !in NewlyFixed(f, Neighbours(3, 3, 1, 1), 8)
    ensures 4 !in NewlyFixed(f, Neighbours(3, 3, 1, 1), 8)
  {
    FixAllNeighbours(f, 3, 3, 1, 1);
  }

  /**
   * `undoFixedNeighborhood`: clears every cell of the change set.  The
   * original ranges over the keys of a map, in no particular order; here
   * they are visited in ascending index order.
   */
  method UndoFixedNeighborhood(fixed: array<bool>, changes: set<int>)
    requires forall c :: c in changes ==> 0 <= c < fixed.Length
    modifies fixed
    ensures fixed[..] == Unfix(old(fixed[..]), changes)
  {
    ghost var f0 := fixed[..];
    for c := 0 to fixed.Length
      invariant forall j :: 0 <= j < fixed.Length ==> fixed[j] == if j < c then f0[j] && j !in changes else f0[j]
    {
      if c in changes {
        fixed[c] := false;
      }
    }
  }
}
