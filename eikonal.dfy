/**
 * The ordered-upwind front-propagation solver of AnisotropicEikonal2d.  Cells move from Far
 * (neither accepted nor considered) to Considered (queued with a tentative value) to Accepted
 * (final value).  The Considered queue is a mutable min-heap addressed through one handle per
 * queued cell; the accepted front is the set of accepted cells that still border a cell not yet
 * accepted.
 */
module Eikonal {
  import opened Wrappers
  import opened LocalUpdate

  /**
   * The grid as the solver sees it: its dimension, its number of cells and, per cell, the
   * counter-clockwise ordered list of vertex neighbours produced by the grid utilities.
   */
  datatype Grid = Grid(dimensions: int, numberOfCells: nat, cellNeighbours: seq<seq<int>>)

  /** A heap entry: a tentative value and the cell it belongs to. */
  datatype ValueAndCell = ValueAndCell(value: real, cell: int)

  /** Every cell has a neighbour list, and every neighbour is a cell. */
  ghost predicate NeighboursInRange(n: nat, nbs: seq<seq<int>>)
  {
    |nbs| == n && forall c, k :: 0 <= c < n && 0 <= k < |nbs[c]| ==> 0 <= nbs[c][k] < n
  }

  /** The neighbour relation is symmetric: a neighbour of c lists c among its own neighbours. */
  ghost predicate Symmetric(nbs: seq<seq<int>>)
  {
    forall c, k :: 0 <= c < |nbs| && 0 <= k < |nbs[c]| && 0 <= nbs[c][k] < |nbs| ==> c in nbs[nbs[c][k]]
  }

  /** What the solver takes from the external neighbour builder. */
  ghost predicate WellFormedNeighbours(n: nat, nbs: seq<seq<int>>)
  {
    NeighboursInRange(n, nbs) && Symmetric(nbs)
  }

  /** Some cell in `ns` is not accepted. */
  ghost predicate HasUnaccepted(ns: seq<int>, acc: seq<bool>)
  {
    exists k :: 0 <= k < |ns| && 0 <= ns[k] < |acc| && !acc[ns[k]]
  }

  /** The exact accepted front: accepted cells with at least one neighbour not accepted. */
  ghost function FrontOf(acc: seq<bool>, nbs: seq<seq<int>>): set<int>
  {
    set c | 0 <= c < |acc| && c < |nbs| && acc[c] && HasUnaccepted(nbs[c], acc)
  }

  /** The set of accepted cells. */
  ghost function AcceptedCells(acc: seq<bool>): set<int>
  {
    set c | 0 <= c < |acc| && acc[c]
  }

  /** Number of cells not yet accepted; the main loop's variant. */
  function CountUnaccepted(acc: seq<bool>): (n: nat)
    ensures n <= |acc|
  {
    if acc == [] then 0 else CountUnaccepted(acc[..|acc| - 1]) + (if acc[|acc| - 1] then 0 else 1)
  }

  /** Accepting one cell that was not accepted lowers the count of unaccepted cells by one. */
  lemma {:induction false} CountAfterAccept(acc: seq<bool>, i: int)
    requires 0 <= i < |acc| && !acc[i]
    ensures CountUnaccepted(acc[i := true]) == CountUnaccepted(acc) - 1
  {
    var last := |acc| - 1;
    if i < last {
      assert acc[i := true][..last] == acc[..last][i := true];
      CountAfterAccept(acc[..last], i);
    } else {
      assert acc[i := true][..last] == acc[..last];
    }
  }

  /**
   * Accepting cell r keeps the exact front within the old front plus r: a cell that borders
   * an unaccepted cell afterwards did so before.
   */
  lemma FrontAfterAccept(acc: seq<bool>, nbs: seq<seq<int>>, front: set<int>, r: int)
    requires 0 <= r < |acc| && FrontOf(acc, nbs) <= front
    ensures FrontOf(acc[r := true], nbs) <= front + {r}
  {
    var acc' := acc[r := true];
    forall c | c in FrontOf(acc', nbs)
      ensures c in front + {r}
    {
      var k :| 0 <= k < |nbs[c]| && 0 <= nbs[c][k] < |acc'| && !acc'[nbs[c][k]];
      if c != r {
        assert !acc[nbs[c][k]];
        assert c in FrontOf(acc, nbs);
      }
    }
  }

  /** Every accepted neighbour of a cell not yet accepted lies on `front`. */
  ghost predicate BordersOnFront(acc: seq<bool>, nbs: seq<seq<int>>, front: set<int>)
    requires NeighboursInRange(|acc|, nbs)
  {
    forall c, k :: 0 <= c < |acc| && !acc[c] && 0 <= k < |nbs[c]| && acc[nbs[c][k]] ==> nbs[c][k] in front
  }

  /**
   * A set containing the exact front holds every accepted neighbour of an unaccepted cell:
   * by symmetry that neighbour borders the unaccepted cell.
   */
  lemma BordersFromFront(acc: seq<bool>, nbs: seq<seq<int>>, front: set<int>)
    requires WellFormedNeighbours(|acc|, nbs) && FrontOf(acc, nbs) <= front
    ensures BordersOnFront(acc, nbs, front)
  {
    forall c, k | 0 <= c < |acc| && !acc[c] && 0 <= k < |nbs[c]| && acc[nbs[c][k]]
      ensures nbs[c][k] in front
    {
      var a := nbs[c][k];
      var j :| 0 <= j < |nbs[a]| && nbs[a][j] == c;
      assert HasUnaccepted(nbs[a], acc);
      assert a in FrontOf(acc, nbs);
    }
  }

  /** The entry at h has the least value of m. */
  predicate LeastAt(m: map<nat, ValueAndCell>, h: nat)
  {
    h in m && forall h' :: h' in m ==> m[h].value <= m[h'].value
  }

  /** A least entry is in the heap's values and no value is below it. */
  lemma LeastIsLeastValue(m: map<nat, ValueAndCell>, h: nat)
    requires LeastAt(m, h)
    ensures m[h] in m.Values && forall e :: e in m.Values ==> m[h].value <= e.value
  {
    forall e | e in m.Values
      ensures m[h].value <= e.value
    {
      var h' :| h' in m && m[h'] == e;
    }
  }

  /** Every queued cell has an accepted neighbour. */
  ghost predicate SupportedBy(acc: seq<bool>, cons: seq<bool>, nbs: seq<seq<int>>)
    requires |cons| == |acc| && NeighboursInRange(|acc|, nbs)
  {
    forall c :: 0 <= c < |acc| && cons[c] ==> exists k :: 0 <= k < |nbs[c]| && acc[nbs[c][k]]
  }

  /** Accepting r and dropping it from the queue keeps every queued cell supported. */
  lemma SupportedAfterAccept(acc: seq<bool>, cons: seq<bool>, nbs: seq<seq<int>>, r: int)
    requires |cons| == |acc| && NeighboursInRange(|acc|, nbs) && SupportedBy(acc, cons, nbs) && 0 <= r < |acc|
    ensures SupportedBy(acc[r := true], cons[r := false], nbs)
  {
    forall c | 0 <= c < |acc| && cons[r := false][c]
      ensures exists k :: 0 <= k < |nbs[c]| && acc[r := true][nbs[c][k]]
    {
      var k :| 0 <= k < |nbs[c]| && acc[nbs[c][k]];
      assert acc[r := true][nbs[c][k]];
    }
  }

  /** Accepting r adds r to the accepted cells. */
  lemma AcceptedCellsAfterAccept(acc: seq<bool>, r: int)
    requires 0 <= r < |acc|
    ensures AcceptedCells(acc[r := true]) == AcceptedCells(acc) + {r}
  {
  }

  /** A non-empty heap has an entry of least value. */
  lemma {:induction false} MinEntryExists(m: map<nat, ValueAndCell>) returns (least: nat)
    requires m != map[]
    ensures LeastAt(m, least)
    decreases m.Keys
  {
    var h0 :| h0 in m;
    var rest := m - {h0};
    if rest == map[] {
      forall h' | h' in m
        ensures h' == h0
      {
        assert h' !in rest;
      }
      least := h0;
    } else {
      assert rest.Keys < m.Keys;
      var h1 := MinEntryExists(rest);
      least := if m[h0].value <= m[h1].value then h0 else h1;
      forall h' | h' in m
        ensures m[least].value <= m[h'].value
      {
        if h' != h0 {
          assert h' in rest && rest[h'] == m[h'];
        }
      }
    }
  }

  /** Construct a solver: fails with the source's logic_error unless the grid is 2-dimensional. */
  method NewSolver(grid: Grid) returns (r: Result<AnisotropicEikonal2d, string>)
    ensures r.Failure? <==> grid.dimensions != 2
    ensures r.Success? ==> fresh(r.value) && r.value.numCells == grid.numberOfCells
                           && r.value.cellNeighbours == grid.cellNeighbours
  {
    if grid.dimensions != 2 {
      return Failure("Grid for AnisotropicEikonal2d must be 2d.");
    }
    var solver := new AnisotropicEikonal2d(grid);
    return Success(solver);
  }

  class AnisotropicEikonal2d {
    const numCells: nat
    const cellNeighbours: seq<seq<int>>

    var isAccepted: seq<bool>
    var isConsidered: seq<bool>
    /** The Considered heap: handle -> entry. */
    var considered: map<nat, ValueAndCell>
    /** The handle of each queued cell. */
    var consideredHandles: map<int, nat>
    /** The next handle the heap hands out; every live handle is below it. */
    var nextHandle: nat
    var acceptedFront: set<int>

    /** The per-cell flag arrays are sized to the grid. */
    ghost predicate Sized()
      reads this`isAccepted, this`isConsidered
    {
      |isAccepted| == numCells && |isConsidered| == numCells
    }

    /**
     * The heap and the handle map describe each other: every entry is for a cell whose handle
     * is that entry's, every handle leads to an entry for its cell, a cell has a handle exactly
     * when it is flagged Considered, and no queued value is the sentinel.
     */
    ghost predicate QueueValid()
      reads this`isAccepted, this`isConsidered, this`considered, this`consideredHandles, this`nextHandle
      requires Sized()
    {
      && (forall h :: h in considered ==>
            && h < nextHandle
            && 0 <= considered[h].cell < numCells
            && considered[h].cell in consideredHandles
            && consideredHandles[considered[h].cell] == h
            && considered[h].value < Inf)
      && (forall c :: c in consideredHandles ==>
            consideredHandles[c] in considered && considered[consideredHandles[c]].cell == c)
      && (forall c :: c in consideredHandles ==> 0 <= c < numCells)
      && (forall c :: 0 <= c < numCells ==> (isConsidered[c] <==> c in consideredHandles))
    }

    /** The solver state between the steps of the main loop. */
    ghost predicate Valid()
      reads this
    {
      && Sized()
      && QueueValid()
      && (forall c :: 0 <= c < numCells && isConsidered[c] ==> !isAccepted[c])
      && acceptedFront <= AcceptedCells(isAccepted)
    }

    /** Every queued cell has an accepted neighbour (it was queued as a neighbour of one). */
    ghost predicate Supported()
      reads this`isAccepted, this`isConsidered
      requires Sized()
      requires NeighboursInRange(numCells, cellNeighbours)
    {
      SupportedBy(isAccepted, isConsidered, cellNeighbours)
    }

    /** The entry at handle h is a minimum of the heap. */
    predicate IsTop(h: nat)
      reads this
    {
      LeastAt(considered, h)
    }

    /** Construct the solver for a 2-d grid, keeping its neighbour lists. */
    constructor (grid: Grid)
      requires grid.dimensions == 2
      ensures numCells == grid.numberOfCells && cellNeighbours == grid.cellNeighbours
    {
      numCells := grid.numberOfCells;
      cellNeighbours := grid.cellNeighbours;
      isAccepted, isConsidered := [], [];
      considered, consideredHandles, nextHandle := map[], map[], 0;
      acceptedFront := {};
    }

    /** topConsidered: an entry of least value (ties are broken by the heap, left open here). */
    method TopConsidered() returns (h: nat, r: ValueAndCell)
      requires Sized() && QueueValid() && considered != map[]
      ensures IsTop(h) && considered[h] == r
      ensures 0 <= r.cell < numCells && isConsidered[r.cell] && consideredHandles[r.cell] == h
    {
      ghost var least := MinEntryExists(considered);
      h :| h in considered && LeastAt(considered, h);
      r := considered[h];
    }

    /** pushConsidered: queue a new entry under a fresh handle and flag its cell Considered. */
    method PushConsidered(vc: ValueAndCell)
      requires Sized() && QueueValid()
      requires 0 <= vc.cell < numCells && !isConsidered[vc.cell] && vc.value < Inf
      modifies this
      ensures Sized() && QueueValid()
      ensures considered == old(considered)[old(nextHandle) := vc]
      ensures consideredHandles == old(consideredHandles)[vc.cell := old(nextHandle)]
      ensures isConsidered == old(isConsidered)[vc.cell := true]
      ensures nextHandle == old(nextHandle) + 1
      ensures isAccepted == old(isAccepted) && acceptedFront == old(acceptedFront)
    {
      var h := nextHandle;
      considered := considered[h := vc];
      nextHandle := nextHandle + 1;
      consideredHandles := consideredHandles[vc.cell := h];
      isConsidered := isConsidered[vc.cell := true];
    }

    /** popConsidered: remove the top entry, its cell's handle and its Considered flag. */
    method PopConsidered(h: nat)
      requires Sized() && QueueValid() && IsTop(h)
      modifies this
      ensures Sized() && QueueValid()
      ensures considered == old(considered) - {h}
      ensures consideredHandles == old(consideredHandles) - {old(considered)[h].cell}
      ensures isConsidered == old(isConsidered)[old(considered)[h].cell := false]
      ensures nextHandle == old(nextHandle)
      ensures isAccepted == old(isAccepted) && acceptedFront == old(acceptedFront)
    {
      var c := considered[h].cell;
      isConsidered := isConsidered[c := false];
      consideredHandles := consideredHandles - {c};
      considered := considered - {h};
    }

    /** The heap's increase(): give the entry at h a value no worse for the min-heap. */
    method Increase(h: nat, vc: ValueAndCell)
      requires Sized() && QueueValid()
      requires h in considered && considered[h].cell == vc.cell && vc.value <= considered[h].value
      modifies this
      ensures Sized() && QueueValid()
      ensures considered == old(considered)[h := vc]
      ensures consideredHandles == old(consideredHandles) && isConsidered == old(isConsidered)
      ensures nextHandle == old(nextHandle)
      ensures isAccepted == old(isAccepted) && acceptedFront == old(acceptedFront)
    {
      considered := considered[h := vc];
    }

    /**
     * The front-prune pass: walk the accepted front in ascending cell order and drop every cell
     * none of whose neighbours is still unaccepted.
     */
    method PruneFront()
      requires Sized() && NeighboursInRange(numCells, cellNeighbours)
      requires acceptedFront <= AcceptedCells(isAccepted)
      modifies this`acceptedFront
      ensures acceptedFront == set c | c in old(acceptedFront) && HasUnaccepted(cellNeighbours[c], isAccepted)
    {
      var cell := 0;
      while cell < numCells
        invariant 0 <= cell <= numCells
        invariant acceptedFront == set c | c in old(acceptedFront) && (c < cell ==> HasUnaccepted(cellNeighbours[c], isAccepted))
      {
        if cell in acceptedFront {
          var onFront := AnyUnaccepted(cellNeighbours[cell], isAccepted);
          if !onFront {
            acceptedFront := acceptedFront - {cell};
          }
        }
        cell := cell + 1;
      }
    }

    /**
     * One neighbour of an accepted cell: queue it with the value computeValue gives it when it
     * is neither accepted nor queued yet; leave everything as it was otherwise.
     */
    method ConsiderNeighbour(cell: int, nbCell: int, ghost solution: seq<real>)
      requires Valid() && WellFormedNeighbours(numCells, cellNeighbours) && Supported()
      requires 0 <= cell < numCells && isAccepted[cell] && nbCell in cellNeighbours[cell]
      requires BordersOnFront(isAccepted, cellNeighbours, acceptedFront)
      requires |solution| == numCells && forall c :: 0 <= c < numCells && !isAccepted[c] ==> solution[c] == Inf
      modifies this
      ensures Valid() && Supported()
      ensures isAccepted == old(isAccepted) && acceptedFront == old(acceptedFront)
      ensures isAccepted[nbCell] || isConsidered[nbCell]
      ensures if old(!isAccepted[nbCell] && !isConsidered[nbCell]) then
                && considered == old(considered)[old(nextHandle) :=
                     ValueAndCell(LocalValue(nbCell, cellNeighbours[nbCell], acceptedFront), nbCell)]
                && consideredHandles == old(consideredHandles)[nbCell := old(nextHandle)]
                && isConsidered == old(isConsidered)[nbCell := true]
                && nextHandle == old(nextHandle) + 1
              else
                && considered == old(considered) && consideredHandles == old(consideredHandles)
                && isConsidered == old(isConsidered) && nextHandle == old(nextHandle)
    {
      if !isAccepted[nbCell] && !isConsidered[nbCell] {
        assert solution[nbCell] == Inf;
        var value := ComputeValue(nbCell, cellNeighbours[nbCell], acceptedFront, isAccepted);
        var j :| 0 <= j < |cellNeighbours[nbCell]| && cellNeighbours[nbCell][j] == cell;
        assert cellNeighbours[nbCell][j] in acceptedFront;
        LocalValueFinite(nbCell, cellNeighbours[nbCell], acceptedFront);
        PushConsidered(ValueAndCell(value, nbCell));
        assert cellNeighbours[nbCell][j] == cell;
      }
    }

    /**
     * Queue every neighbour of an accepted cell that is neither accepted nor queued yet, with
     * the value computeValue gives it (steps 3 and 6 of the algorithm).
     */
    method PushNeighbours(cell: int, ghost solution: seq<real>)
      requires Valid() && WellFormedNeighbours(numCells, cellNeighbours) && Supported()
      requires 0 <= cell < numCells && isAccepted[cell]
      requires BordersOnFront(isAccepted, cellNeighbours, acceptedFront)
      requires |solution| == numCells && forall c :: 0 <= c < numCells && !isAccepted[c] ==> solution[c] == Inf
      modifies this
      ensures Valid() && Supported()
      ensures isAccepted == old(isAccepted) && acceptedFront == old(acceptedFront)
      ensures forall k :: 0 <= k < |cellNeighbours[cell]| ==>
                isAccepted[cellNeighbours[cell][k]] || isConsidered[cellNeighbours[cell][k]]
      ensures forall c :: 0 <= c < numCells && old(isConsidered[c]) ==> isConsidered[c]
      ensures forall h :: h in old(considered) ==> h in considered && considered[h] == old(considered)[h]
      ensures forall h :: h in considered && h !in old(considered) ==>
                && old(nextHandle) <= h
                && considered[h].cell in cellNeighbours[cell]
                && considered[h].value == LocalValue(considered[h].cell, cellNeighbours[considered[h].cell], acceptedFront)
    {
      var nbs := cellNeighbours[cell];
      var i := 0;
      while i < |nbs|
        invariant 0 <= i <= |nbs|
        invariant Valid() && Supported()
        invariant isAccepted == old(isAccepted) && acceptedFront == old(acceptedFront)
        invariant forall k :: 0 <= k < i ==> isAccepted[nbs[k]] || isConsidered[nbs[k]]
        invariant forall c :: 0 <= c < numCells && old(isConsidered[c]) ==> isConsidered[c]
        invariant forall h :: h in old(considered) ==> h in considered && considered[h] == old(considered)[h]
        invariant old(nextHandle) <= nextHandle
        invariant forall h :: h in considered && h !in old(considered) ==>
                    && old(nextHandle) <= h
                    && considered[h].cell in nbs
                    && considered[h].value == LocalValue(considered[h].cell, cellNeighbours[considered[h].cell], acceptedFront)
      {
        ConsiderNeighbour(cell, nbs[i], solution);
        i := i + 1;
      }
    }

    /**
     * Re-evaluate the queued entry at handle h after the acceptance of r: when its cell is close
     * to r and computeValue now gives a strictly smaller value, lower the entry to that value.
     */
    method Reevaluate(r: int, h: nat)
      requires Valid() && WellFormedNeighbours(numCells, cellNeighbours) && Supported()
      requires BordersOnFront(isAccepted, cellNeighbours, acceptedFront)
      requires h in considered
      modifies this
      ensures Valid() && Supported()
      ensures isAccepted == old(isAccepted) && acceptedFront == old(acceptedFront)
      ensures isConsidered == old(isConsidered) && consideredHandles == old(consideredHandles)
      ensures considered == old(considered)[h := Reevaluated(r, old(considered)[h], cellNeighbours, acceptedFront)]
      ensures nextHandle == old(nextHandle)
    {
      var ccell := considered[h].cell;
      if IsClose(r, ccell) {
        var value := ComputeValue(ccell, cellNeighbours[ccell], acceptedFront, isAccepted);
        var k :| 0 <= k < |cellNeighbours[ccell]| && isAccepted[cellNeighbours[ccell][k]];
        assert cellNeighbours[ccell][k] in acceptedFront;
        LocalValueFinite(ccell, cellNeighbours[ccell], acceptedFront);
        if value < considered[h].value {
          Increase(consideredHandles[ccell], ValueAndCell(value, ccell));
        }
      }
    }

    /**
     * Re-evaluate every queued entry whose cell is close to the newly accepted cell r, lowering
     * its value when computeValue now gives a strictly smaller one (step 7).
     */
    method RecomputeConsidered(r: int)
      requires Valid() && WellFormedNeighbours(numCells, cellNeighbours) && Supported()
      requires BordersOnFront(isAccepted, cellNeighbours, acceptedFront)
      modifies this
      ensures Valid() && Supported()
      ensures isAccepted == old(isAccepted) && acceptedFront == old(acceptedFront)
      ensures isConsidered == old(isConsidered) && consideredHandles == old(consideredHandles)
      ensures considered.Keys == old(considered).Keys
      ensures forall h :: h in considered ==> considered[h] == Reevaluated(r, old(considered)[h], cellNeighbours, acceptedFront)
      ensures nextHandle == old(nextHandle)
    {
      ghost var entries := considered;
      ghost var front := acceptedFront;
      var hh := 0;
      while hh < nextHandle
        invariant 0 <= hh <= nextHandle == old(nextHandle)
        invariant Valid() && Supported()
        invariant isAccepted == old(isAccepted) && acceptedFront == front
        invariant isConsidered == old(isConsidered) && consideredHandles == old(consideredHandles)
        invariant EntriesInRange(entries, numCells) && NeighboursInRange(numCells, cellNeighbours)
        invariant ReevaluatedBelow(considered, entries, hh, r, cellNeighbours, front)
      {
        if hh in considered {
          ghost var before := considered;
          Reevaluate(r, hh);
          ReevaluatedStep(before, considered, entries, hh, r, cellNeighbours, front);
        }
        hh := hh + 1;
      }
    }

    /**
     * The invariant of the main loop of solve, over the solution array and the record of the
     * cells accepted so far (the predicates it is built from are stated below the class).
     */
    ghost predicate Progress(startcells: seq<int>, solution: seq<real>, order: seq<ValueAndCell>)
      reads this
    {
      && Valid() && WellFormedNeighbours(numCells, cellNeighbours) && Supported()
      && StartCellsInRange(startcells, numCells)
      && FrontOf(isAccepted, cellNeighbours) <= acceptedFront
      && SolutionMatches(isAccepted, startcells, solution)
      && Closed(isAccepted, isConsidered, cellNeighbours)
      && OrderMatches(isAccepted, startcells, solution, order)
      && AllProduced(considered, cellNeighbours)
      && OrderProduced(order, cellNeighbours)
      && OrderSupported(order, startcells, cellNeighbours)
    }

    /** Steps 1 and 2 of solve: every cell Far with the sentinel, then the start cells Accepted with value 0. */
    method AcceptStartCells(startcells: seq<int>) returns (solution: seq<real>)
      requires StartCellsInRange(startcells, numCells)
      modifies this
      ensures Valid() && considered == map[] && consideredHandles == map[]
      ensures acceptedFront == AcceptedCells(isAccepted) == set i | 0 <= i < |startcells| :: startcells[i]
      ensures forall c :: 0 <= c < numCells ==> !isConsidered[c]
      ensures |solution| == numCells
      ensures forall c :: 0 <= c < numCells ==>
                (isAccepted[c] <==> c in startcells) && solution[c] == if isAccepted[c] then 0.0 else Inf
    {
      // 1. Put all cells in Far.
      solution := seq(numCells, _ => Inf);
      isAccepted := seq(numCells, _ => false);
      acceptedFront := {};
      considered, consideredHandles := map[], map[];
      isConsidered := seq(numCells, _ => false);

      // 2. Move the start cells to Accepted with value 0.
      var ii := 0;
      while ii < |startcells|
        invariant 0 <= ii <= |startcells|
        invariant Sized() && QueueValid() && considered == map[] && consideredHandles == map[] && acceptedFront == {}
        invariant forall c :: 0 <= c < numCells ==> !isConsidered[c]
        invariant |solution| == numCells
        invariant forall c :: 0 <= c < numCells ==>
                    (isAccepted[c] <==> c in startcells[..ii]) && solution[c] == if isAccepted[c] then 0.0 else Inf
      {
        isAccepted := isAccepted[startcells[ii] := true];
        solution := solution[startcells[ii] := 0.0];
        ii := ii + 1;
      }
      assert startcells[..ii] == startcells;
      acceptedFront := set i | 0 <= i < |startcells| :: startcells[i];
      assert acceptedFront == AcceptedCells(isAccepted);
    }

    /** Step 3 of solve: queue the Far neighbours of the start cells. */
    method Seed(startcells: seq<int>) returns (solution: seq<real>)
      requires WellFormedNeighbours(numCells, cellNeighbours)
      requires StartCellsInRange(startcells, numCells)
      modifies this
      ensures Progress(startcells, solution, [])
      ensures acceptedFront == set i | 0 <= i < |startcells| :: startcells[i]
      ensures forall h :: h in considered ==>
                considered[h].value == LocalValue(considered[h].cell, cellNeighbours[considered[h].cell], acceptedFront)
      ensures forall h :: h in considered ==>
                exists j :: 0 <= j < |startcells| && considered[h].cell in cellNeighbours[startcells[j]]
    {
      solution := AcceptStartCells(startcells);
      BordersFromFront(isAccepted, cellNeighbours, acceptedFront);
      QueueStartNeighbours(startcells, solution);
      forall h | h in considered
        ensures Produced(considered[h].cell, cellNeighbours[considered[h].cell], considered[h].value)
      {
        LocalValueProduced(considered[h].cell, cellNeighbours[considered[h].cell], acceptedFront);
      }
      forall c, k | 0 <= c < numCells && isAccepted[c] && 0 <= k < |cellNeighbours[c]|
        ensures isAccepted[cellNeighbours[c][k]] || isConsidered[cellNeighbours[c][k]]
      {
        var j :| 0 <= j < |startcells| && startcells[j] == c;
      }
    }

    /**
     * The loop of step 3: push the Far neighbours of each start cell in turn.  Every queued
     * entry is then for a neighbour of a start cell, at computeValue's value.
     */
    method QueueStartNeighbours(startcells: seq<int>, ghost solution: seq<real>)
      requires Valid() && WellFormedNeighbours(numCells, cellNeighbours) && Supported()
      requires considered == map[]
      requires forall i :: 0 <= i < |startcells| ==> 0 <= startcells[i] < numCells && isAccepted[startcells[i]]
      requires BordersOnFront(isAccepted, cellNeighbours, acceptedFront)
      requires |solution| == numCells && forall c :: 0 <= c < numCells && !isAccepted[c] ==> solution[c] == Inf
      modifies this
      ensures Valid() && Supported()
      ensures isAccepted == old(isAccepted) && acceptedFront == old(acceptedFront)
      ensures forall j, k :: 0 <= j < |startcells| && 0 <= k < |cellNeighbours[startcells[j]]| ==>
                isAccepted[cellNeighbours[startcells[j]][k]] || isConsidered[cellNeighbours[startcells[j]][k]]
      ensures forall h :: h in considered ==>
                considered[h].value == LocalValue(considered[h].cell, cellNeighbours[considered[h].cell], acceptedFront)
      ensures forall h :: h in considered ==>
                exists j :: 0 <= j < |startcells| && considered[h].cell in cellNeighbours[startcells[j]]
    {
      var ii := 0;
      while ii < |startcells|
        invariant 0 <= ii <= |startcells|
        invariant Valid() && Supported()
        invariant isAccepted == old(isAccepted) && acceptedFront == old(acceptedFront)
        invariant forall j, k :: 0 <= j < ii && 0 <= k < |cellNeighbours[startcells[j]]| ==>
                    isAccepted[cellNeighbours[startcells[j]][k]] || isConsidered[cellNeighbours[startcells[j]][k]]
        invariant forall h :: h in considered ==>
                    considered[h].value == LocalValue(considered[h].cell, cellNeighbours[considered[h].cell], acceptedFront)
        invariant forall h :: h in considered ==>
                    exists j :: 0 <= j < ii && considered[h].cell in cellNeighbours[startcells[j]]
      {
        ghost var before := considered;
        PushNeighbours(startcells[ii], solution);
        forall h | h in considered
          ensures exists j :: 0 <= j < ii + 1 && considered[h].cell in cellNeighbours[startcells[j]]
        {
          if h !in before {
            assert considered[h].cell in cellNeighbours[startcells[ii]];
          }
        }
        ii := ii + 1;
      }
    }

    /**
     * Steps 4 and 5 of solve up to the prune pass: pop a least queued entry r, accept its cell
     * and add that cell to the front.
     */
    method PopLeast() returns (h: nat, r: ValueAndCell)
      requires Valid() && NeighboursInRange(numCells, cellNeighbours) && Supported() && considered != map[]
      modifies this
      ensures Valid() && Supported()
      ensures h in old(considered) && old(considered)[h] == r
      ensures r in old(considered).Values && forall e :: e in old(considered).Values ==> r.value <= e.value
      ensures considered == old(considered) - {h} && consideredHandles == old(consideredHandles) - {r.cell}
      ensures nextHandle == old(nextHandle)
      ensures 0 <= r.cell < numCells && !old(isAccepted)[r.cell] && old(isConsidered)[r.cell] && r.value < Inf
      ensures isAccepted == old(isAccepted)[r.cell := true]
      ensures isConsidered == old(isConsidered)[r.cell := false]
      ensures acceptedFront == old(acceptedFront) + {r.cell}
    {
      // 4. The queued cell with the least value.
      h, r := TopConsidered();
      LeastIsLeastValue(considered, h);
      SupportedAfterAccept(isAccepted, isConsidered, cellNeighbours, r.cell);
      AcceptedCellsAfterAccept(isAccepted, r.cell);

      // 5. Accept it and add it to the front.
      isAccepted := isAccepted[r.cell := true];
      PopConsidered(h);
      acceptedFront := acceptedFront + {r.cell};
    }

    /**
     * Steps 4 and 5 of solve: accept a least queued entry r and prune the front, which then
     * is exactly the front of the new accepted set.
     */
    method AcceptTop() returns (h: nat, r: ValueAndCell)
      requires Valid() && WellFormedNeighbours(numCells, cellNeighbours) && Supported() && considered != map[]
      requires FrontOf(isAccepted, cellNeighbours) <= acceptedFront
      modifies this
      ensures Valid() && Supported()
      ensures h in old(considered) && old(considered)[h] == r
      ensures r in old(considered).Values && forall e :: e in old(considered).Values ==> r.value <= e.value
      ensures considered == old(considered) - {h} && consideredHandles == old(consideredHandles) - {r.cell}
      ensures nextHandle == old(nextHandle)
      ensures 0 <= r.cell < numCells && !old(isAccepted)[r.cell] && old(isConsidered)[r.cell] && r.value < Inf
      ensures isAccepted == old(isAccepted)[r.cell := true]
      ensures isConsidered == old(isConsidered)[r.cell := false]
      ensures acceptedFront == FrontOf(isAccepted, cellNeighbours)
      ensures BordersOnFront(isAccepted, cellNeighbours, acceptedFront)
    {
      h, r := PopLeast();
      FrontAfterAccept(old(isAccepted), cellNeighbours, old(acceptedFront), r.cell);
      ghost var front := acceptedFront;
      PruneFront();
      PrunedFront(isAccepted, cellNeighbours, front);
      BordersFromFront(isAccepted, cellNeighbours, acceptedFront);
    }

    /**
     * Steps 4-7 of solve, one pass of the main loop: accept a least queued entry r, prune the
     * front, queue the Far neighbours of r's cell and re-evaluate the queued cells.
     */
    method AcceptNext(startcells: seq<int>, solution: seq<real>, ghost order: seq<ValueAndCell>)
      returns (solution': seq<real>, h: nat, r: ValueAndCell)
      requires Progress(startcells, solution, order) && considered != map[]
      modifies this
      ensures Progress(startcells, solution', order + [r])
      ensures h in old(considered) && old(considered)[h] == r
      ensures r in old(considered).Values && forall e :: e in old(considered).Values ==> r.value <= e.value
      ensures acceptedFront == FrontOf(isAccepted, cellNeighbours)
      ensures h !in considered
      ensures forall h' :: h' in old(considered) && h' != h ==>
                h' in considered && considered[h'] == Reevaluated(r.cell, old(considered)[h'], cellNeighbours, acceptedFront)
      ensures forall h' :: h' in considered && h' !in old(considered) ==>
                && considered[h'].cell in cellNeighbours[r.cell]
                && considered[h'].value == LocalValue(considered[h'].cell, cellNeighbours[considered[h'].cell], acceptedFront)
      ensures 0 <= r.cell < numCells && !old(isAccepted)[r.cell] && isAccepted == old(isAccepted)[r.cell := true]
      ensures solution' == solution[r.cell := r.value]
      ensures CountUnaccepted(isAccepted) == old(CountUnaccepted(isAccepted)) - 1
    {
      h, r := AcceptTop();
      solution' := solution[r.cell := r.value];
      CountAfterAccept(old(isAccepted), r.cell);
      SolutionAfterAccept(old(isAccepted), startcells, solution, r);
      OrderAfterAccept(old(isAccepted), startcells, solution, order, r);
      OrderProducedAfterAccept(old(considered), order, h, cellNeighbours);
      OrderSupportedAfterAccept(old(isAccepted), old(isConsidered), startcells, solution, order, r, cellNeighbours);
      QueueAndReevaluate(r.cell, solution');
      ClosedAfterAccept(old(isAccepted), old(isConsidered), isConsidered, cellNeighbours, r.cell);
    }

    /**
     * Steps 6 and 7 of solve after the acceptance of r: queue r's neighbours that are still
     * Far, then re-evaluate every queued entry.  An entry queued before keeps its handle and
     * becomes its re-evaluation; a new entry is for a neighbour of r, at computeValue's value.
     */
    method QueueAndReevaluate(r: int, ghost solution: seq<real>)
      requires Valid() && WellFormedNeighbours(numCells, cellNeighbours) && Supported()
      requires 0 <= r < numCells && isAccepted[r]
      requires BordersOnFront(isAccepted, cellNeighbours, acceptedFront)
      requires |solution| == numCells && forall c :: 0 <= c < numCells && !isAccepted[c] ==> solution[c] == Inf
      requires AllProduced(considered, cellNeighbours)
      modifies this
      ensures Valid() && Supported() && AllProduced(considered, cellNeighbours)
      ensures isAccepted == old(isAccepted) && acceptedFront == old(acceptedFront)
      ensures forall k :: 0 <= k < |cellNeighbours[r]| ==>
                isAccepted[cellNeighbours[r][k]] || isConsidered[cellNeighbours[r][k]]
      ensures forall c :: 0 <= c < numCells && old(isConsidered[c]) ==> isConsidered[c]
      ensures forall h :: h in old(considered) ==>
                h in considered && considered[h] == Reevaluated(r, old(considered)[h], cellNeighbours, acceptedFront)
      ensures forall h :: h in considered && h !in old(considered) ==>
                && old(nextHandle) <= h
                && considered[h].cell in cellNeighbours[r]
                && considered[h].value == LocalValue(considered[h].cell, cellNeighbours[considered[h].cell], acceptedFront)
    {
      // 6. Queue the neighbours of r that are still Far.
      PushNeighbours(r, solution);
      ghost var pushed := considered;

      // 7. Re-evaluate the queued cells close to r.
      RecomputeConsidered(r);
      ProducedAfterStep(old(considered), pushed, considered, r, cellNeighbours, acceptedFront);
    }

    /**
     * solve: after Seed, accept least queued entries until nothing is queued.  The ghost
     * `acceptedOrder` records each accepted (value, cell) pair in the order of acceptance.
     */
    method Solve(startcells: seq<int>) returns (solution: seq<real>, ghost acceptedOrder: seq<ValueAndCell>)
      requires WellFormedNeighbours(numCells, cellNeighbours)
      requires StartCellsInRange(startcells, numCells)
      modifies this
      ensures Progress(startcells, solution, acceptedOrder)
      ensures considered == map[] && consideredHandles == map[]
      ensures forall c :: 0 <= c < numCells ==> !isConsidered[c]
      ensures |solution| == numCells
      ensures forall i :: 0 <= i < |startcells| ==> solution[startcells[i]] == 0.0
      ensures forall c :: 0 <= c < numCells ==> (solution[c] == Inf <==> !isAccepted[c])
      ensures forall c, k :: 0 <= c < numCells && isAccepted[c] && 0 <= k < |cellNeighbours[c]| ==>
                isAccepted[cellNeighbours[c][k]]
      ensures |acceptedOrder| <= numCells
      ensures forall c :: 0 <= c < numCells && isAccepted[c] && c !in startcells ==>
                Produced(c, cellNeighbours[c], solution[c])
      ensures forall island :: Island(island, startcells, cellNeighbours) ==>
                forall c :: c in island ==> 0 <= c < numCells && !isAccepted[c] && solution[c] == Inf
    {
      solution := Seed(startcells);
      acceptedOrder := [];
      while considered != map[]
        invariant Progress(startcells, solution, acceptedOrder)
        invariant |acceptedOrder| + CountUnaccepted(isAccepted) <= numCells
        decreases CountUnaccepted(isAccepted)
      {
        var h, r;
        solution, h, r := AcceptNext(startcells, solution, acceptedOrder);
        acceptedOrder := acceptedOrder + [r];
      }
      SolvedValues(isAccepted, startcells, solution, acceptedOrder, cellNeighbours);
      assert forall c :: c !in consideredHandles;
    }
  }

  /**
   * The prune pass leaves exactly the front: starting from accepted cells that include the
   * front, keeping those with an unaccepted neighbour gives the front.
   */
  lemma PrunedFront(acc: seq<bool>, nbs: seq<seq<int>>, front: set<int>)
    requires NeighboursInRange(|acc|, nbs) && FrontOf(acc, nbs) <= front <= AcceptedCells(acc)
    ensures (set c | c in front && HasUnaccepted(nbs[c], acc)) == FrontOf(acc, nbs)
  {
  }

  /** Every start cell is a cell of the grid. */
  ghost predicate StartCellsInRange(startcells: seq<int>, n: nat)
  {
    forall i :: 0 <= i < |startcells| ==> 0 <= startcells[i] < n
  }

  /**
   * The solution array against the accepted flags: one value per cell, exactly the accepted
   * cells below the sentinel, every other cell at the sentinel, every start cell accepted at 0.
   */
  ghost predicate SolutionMatches(acc: seq<bool>, startcells: seq<int>, solution: seq<real>)
  {
    && |solution| == |acc|
    && (forall c :: 0 <= c < |acc| ==> (acc[c] <==> solution[c] < Inf))
    && (forall c :: 0 <= c < |acc| && !acc[c] ==> solution[c] == Inf)
    && (forall i :: 0 <= i < |startcells| ==> 0 <= startcells[i] < |acc| && acc[startcells[i]] && solution[startcells[i]] == 0.0)
  }

  /** Every neighbour of an accepted cell is accepted or queued. */
  ghost predicate Closed(acc: seq<bool>, cons: seq<bool>, nbs: seq<seq<int>>)
    requires |cons| == |acc| && NeighboursInRange(|acc|, nbs)
  {
    forall c, k :: 0 <= c < |acc| && acc[c] && 0 <= k < |nbs[c]| ==> acc[nbs[c][k]] || cons[nbs[c][k]]
  }

  /** The cells of an acceptance record. */
  ghost function OrderCells(order: seq<ValueAndCell>): set<int>
  {
    set i | 0 <= i < |order| :: order[i].cell
  }

  /**
   * The acceptance record against the accepted flags: distinct accepted cells that are not
   * start cells, each holding the value it was accepted with; with the start cells, exactly
   * the accepted cells.
   */
  ghost predicate OrderMatches(acc: seq<bool>, startcells: seq<int>, solution: seq<real>, order: seq<ValueAndCell>)
    requires |solution| == |acc|
  {
    && (forall i :: 0 <= i < |order| ==>
          && 0 <= order[i].cell < |acc|
          && acc[order[i].cell]
          && order[i].cell !in startcells
          && solution[order[i].cell] == order[i].value)
    && (forall i, j :: 0 <= i < j < |order| ==> order[i].cell != order[j].cell)
    && (forall c :: 0 <= c < |acc| ==> (acc[c] <==> c in startcells || c in OrderCells(order)))
  }

  /** Accepting an unaccepted cell r with a value below the sentinel keeps SolutionMatches. */
  lemma SolutionAfterAccept(acc: seq<bool>, startcells: seq<int>, solution: seq<real>, r: ValueAndCell)
    requires SolutionMatches(acc, startcells, solution)
    requires 0 <= r.cell < |acc| && !acc[r.cell] && r.value < Inf
    ensures SolutionMatches(acc[r.cell := true], startcells, solution[r.cell := r.value])
  {
  }

  /** Accepting an unaccepted cell r extends the acceptance record by r. */
  lemma OrderAfterAccept(acc: seq<bool>, startcells: seq<int>, solution: seq<real>, order: seq<ValueAndCell>, r: ValueAndCell)
    requires |solution| == |acc| && OrderMatches(acc, startcells, solution, order)
    requires SolutionMatches(acc, startcells, solution)
    requires 0 <= r.cell < |acc| && !acc[r.cell]
    ensures OrderMatches(acc[r.cell := true], startcells, solution[r.cell := r.value], order + [r])
  {
    var order' := order + [r];
    assert OrderCells(order') == OrderCells(order) + {r.cell} by {
      forall c | c in OrderCells(order')
        ensures c in OrderCells(order) + {r.cell}
      {
        var i :| 0 <= i < |order'| && order'[i].cell == c;
        if i < |order| {
          assert order[i].cell == c;
        }
      }
      forall c | c in OrderCells(order)
        ensures c in OrderCells(order')
      {
        var i :| 0 <= i < |order| && order[i].cell == c;
        assert order'[i].cell == c;
      }
      assert order'[|order|].cell == r.cell;
    }
  }

  /**
   * After r is accepted and popped (cons0 to a state where only r lost its flag), and r's
   * neighbours are then accepted or queued in cons2 (which keeps every other queued cell),
   * every neighbour of an accepted cell is accepted or queued.
   */
  lemma ClosedAfterAccept(acc: seq<bool>, cons0: seq<bool>, cons2: seq<bool>, nbs: seq<seq<int>>, r: int)
    requires |cons0| == |acc| == |cons2| && NeighboursInRange(|acc|, nbs)
    requires Closed(acc, cons0, nbs) && 0 <= r < |acc|
    requires forall c :: 0 <= c < |acc| && c != r && cons0[c] ==> cons2[c]
    requires forall k :: 0 <= k < |nbs[r]| ==> acc[r := true][nbs[r][k]] || cons2[nbs[r][k]]
    ensures Closed(acc[r := true], cons2, nbs)
  {
  }

  /** Every entry of a heap snapshot is for a cell of the grid. */
  ghost predicate EntriesInRange(entries: map<nat, ValueAndCell>, n: nat)
  {
    forall h :: h in entries ==> 0 <= entries[h].cell < n
  }

  /**
   * A queued entry after step 7 for the accepted cell r: when its cell is close to r, the
   * smaller of its previous value and the value computeValue now gives; otherwise unchanged.
   */
  function Reevaluated(r: int, e: ValueAndCell, nbs: seq<seq<int>>, front: set<int>): (v: ValueAndCell)
    requires 0 <= e.cell < |nbs|
    ensures v.cell == e.cell && v.value <= e.value
    ensures v.value < e.value ==> v.value == LocalValue(e.cell, nbs[e.cell], front)
  {
    if IsClose(r, e.cell) then ValueAndCell(Min(e.value, LocalValue(e.cell, nbs[e.cell], front)), e.cell)
    else e
  }

  /** Every heap entry holds a value computeValue produced for its cell. */
  ghost predicate AllProduced(m: map<nat, ValueAndCell>, nbs: seq<seq<int>>)
  {
    forall h :: h in m ==> 0 <= m[h].cell < |nbs| && Produced(m[h].cell, nbs[m[h].cell], m[h].value)
  }

  /** Every accepted pair of the acceptance record holds a value computeValue produced for its cell. */
  ghost predicate OrderProduced(order: seq<ValueAndCell>, nbs: seq<seq<int>>)
  {
    forall i :: 0 <= i < |order| ==> 0 <= order[i].cell < |nbs| && Produced(order[i].cell, nbs[order[i].cell], order[i].value)
  }

  /**
   * Every recorded cell was accepted next to an accepted cell: one of its neighbours is a
   * start cell or was recorded before it.
   */
  ghost predicate OrderSupported(order: seq<ValueAndCell>, startcells: seq<int>, nbs: seq<seq<int>>)
  {
    forall i :: 0 <= i < |order| ==>
      && 0 <= order[i].cell < |nbs|
      && exists k :: 0 <= k < |nbs[order[i].cell]| &&
           (nbs[order[i].cell][k] in startcells || nbs[order[i].cell][k] in OrderCells(order[..i]))
  }

  /** Recording a queued cell r keeps the record supported: r has an accepted neighbour. */
  lemma OrderSupportedAfterAccept(acc: seq<bool>, cons: seq<bool>, startcells: seq<int>, solution: seq<real>,
                                  order: seq<ValueAndCell>, r: ValueAndCell, nbs: seq<seq<int>>)
    requires |cons| == |acc| == |solution| && NeighboursInRange(|acc|, nbs)
    requires SupportedBy(acc, cons, nbs) && OrderMatches(acc, startcells, solution, order)
    requires OrderSupported(order, startcells, nbs)
    requires 0 <= r.cell < |acc| && cons[r.cell]
    ensures OrderSupported(order + [r], startcells, nbs)
  {
    var order' := order + [r];
    forall i | 0 <= i < |order'|
      ensures 0 <= order'[i].cell < |nbs|
      ensures exists k :: 0 <= k < |nbs[order'[i].cell]| &&
                (nbs[order'[i].cell][k] in startcells || nbs[order'[i].cell][k] in OrderCells(order'[..i]))
    {
      assert order'[..i] == order[..i] || i == |order|;
      if i == |order| {
        assert order'[..i] == order;
        var k :| 0 <= k < |nbs[r.cell]| && acc[nbs[r.cell][k]];
        assert nbs[order'[i].cell][k] in startcells || nbs[order'[i].cell][k] in OrderCells(order'[..i]);
      } else {
        assert order'[i] == order[i];
      }
    }
  }

  /** A set of cells closed under the neighbour relation that holds no start cell. */
  ghost predicate Island(island: set<int>, startcells: seq<int>, nbs: seq<seq<int>>)
  {
    && (forall c :: c in island ==> 0 <= c < |nbs| && forall k :: 0 <= k < |nbs[c]| ==> nbs[c][k] in island)
    && (forall i :: 0 <= i < |startcells| ==> startcells[i] !in island)
  }

  /** No cell of an island is ever recorded: its supporting neighbour would lie in the island too. */
  lemma {:induction false} IslandNotRecorded(island: set<int>, startcells: seq<int>, order: seq<ValueAndCell>,
                                             nbs: seq<seq<int>>, i: nat)
    requires Island(island, startcells, nbs) && OrderSupported(order, startcells, nbs) && i < |order|
    ensures order[i].cell !in island
    decreases i
  {
    var c := order[i].cell;
    var k :| 0 <= k < |nbs[c]| && (nbs[c][k] in startcells || nbs[c][k] in OrderCells(order[..i]));
    var n := nbs[c][k];
    if n in OrderCells(order[..i]) {
      var j :| 0 <= j < i && order[..i][j].cell == n;
      IslandNotRecorded(island, startcells, order, nbs, j);
    }
    assert n !in island;
  }

  /**
   * A cell with no neighbour path to a start cell keeps the sentinel: no cell of an island is
   * accepted.
   */
  lemma IslandStaysAtSentinel(island: set<int>, acc: seq<bool>, startcells: seq<int>, solution: seq<real>,
                              order: seq<ValueAndCell>, nbs: seq<seq<int>>)
    requires |nbs| == |acc| && Island(island, startcells, nbs)
    requires SolutionMatches(acc, startcells, solution) && OrderMatches(acc, startcells, solution, order)
    requires OrderSupported(order, startcells, nbs)
    ensures forall c :: c in island ==> 0 <= c < |acc| && !acc[c] && solution[c] == Inf
  {
    forall c | c in island
      ensures !acc[c]
    {
      forall i | 0 <= i < |order|
        ensures order[i].cell != c
      {
        IslandNotRecorded(island, startcells, order, nbs, i);
      }
    }
  }

  /**
   * What the final state says about the values: an accepted cell other than a start cell holds
   * a value computeValue produced, and every cell of an island keeps the sentinel.
   */
  lemma SolvedValues(acc: seq<bool>, startcells: seq<int>, solution: seq<real>, order: seq<ValueAndCell>,
                     nbs: seq<seq<int>>)
    requires |nbs| == |acc|
    requires SolutionMatches(acc, startcells, solution) && OrderMatches(acc, startcells, solution, order)
    requires OrderProduced(order, nbs) && OrderSupported(order, startcells, nbs)
    ensures forall c :: 0 <= c < |acc| && acc[c] && c !in startcells ==> Produced(c, nbs[c], solution[c])
    ensures forall island :: Island(island, startcells, nbs) ==>
              forall c :: c in island ==> 0 <= c < |acc| && !acc[c] && solution[c] == Inf
  {
    forall c | 0 <= c < |acc| && acc[c] && c !in startcells
      ensures Produced(c, nbs[c], solution[c])
    {
      var i :| 0 <= i < |order| && order[i].cell == c;
    }
    forall island | Island(island, startcells, nbs)
      ensures forall c :: c in island ==> 0 <= c < |acc| && !acc[c] && solution[c] == Inf
    {
      IslandStaysAtSentinel(island, acc, startcells, solution, order, nbs);
    }
  }

  /** Recording an accepted heap entry keeps the acceptance record's values produced. */
  lemma OrderProducedAfterAccept(m: map<nat, ValueAndCell>, order: seq<ValueAndCell>, h: nat, nbs: seq<seq<int>>)
    requires AllProduced(m, nbs) && OrderProduced(order, nbs) && h in m
    ensures OrderProduced(order + [m[h]], nbs)
  {
    assert (order + [m[h]])[|order|] == m[h];
  }

  /**
   * One pass of the main loop keeps every queued value one that computeValue produced: the
   * heap after step 7 holds the re-evaluated entries of the heap after step 6, which holds the
   * entries left after the pop plus new entries at computeValue's finite value.
   */
  lemma ProducedAfterStep(before: map<nat, ValueAndCell>, pushed: map<nat, ValueAndCell>, after: map<nat, ValueAndCell>,
                          r: int, nbs: seq<seq<int>>, front: set<int>)
    requires AllProduced(before, nbs)
    requires forall h :: h in pushed ==> 0 <= pushed[h].cell < |nbs|
    requires forall h :: h in pushed && h in before ==> pushed[h] == before[h]
    requires forall h :: h in pushed && h !in before ==>
               pushed[h].value == LocalValue(pushed[h].cell, nbs[pushed[h].cell], front)
    requires forall h :: h in pushed ==> pushed[h].value < Inf
    requires after.Keys == pushed.Keys
    requires forall h :: h in after ==> after[h] == Reevaluated(r, pushed[h], nbs, front)
    ensures AllProduced(after, nbs)
  {
    forall h | h in after
      ensures Produced(after[h].cell, nbs[after[h].cell], after[h].value)
    {
      var e := pushed[h];
      if after[h].value < e.value || h !in before {
        LocalValueProduced(e.cell, nbs[e.cell], front);
      }
    }
  }

  /** The heap `cur` holds the snapshot's entries, re-evaluated for the handles below hh. */
  ghost predicate ReevaluatedBelow(cur: map<nat, ValueAndCell>, entries: map<nat, ValueAndCell>, hh: nat,
                                   r: int, nbs: seq<seq<int>>, front: set<int>)
    requires EntriesInRange(entries, |nbs|)
  {
    && cur.Keys == entries.Keys
    && forall h :: h in cur ==> cur[h] == if h < hh then Reevaluated(r, entries[h], nbs, front) else entries[h]
  }

  /** Re-evaluating the entry at hh moves the boundary of ReevaluatedBelow past hh. */
  lemma ReevaluatedStep(before: map<nat, ValueAndCell>, cur: map<nat, ValueAndCell>, entries: map<nat, ValueAndCell>,
                        hh: nat, r: int, nbs: seq<seq<int>>, front: set<int>)
    requires EntriesInRange(entries, |nbs|) && ReevaluatedBelow(before, entries, hh, r, nbs, front)
    requires hh in before && cur == before[hh := Reevaluated(r, before[hh], nbs, front)]
    ensures ReevaluatedBelow(cur, entries, hh + 1, r, nbs, front)
  {
  }

  /** The on_front scan of the prune pass: does some cell of `ns` remain unaccepted? */
  method AnyUnaccepted(ns: seq<int>, acc: seq<bool>) returns (onFront: bool)
    requires forall k :: 0 <= k < |ns| ==> 0 <= ns[k] < |acc|
    ensures onFront <==> HasUnaccepted(ns, acc)
  {
    onFront := false;
    var k := 0;
    while k < |ns|
      invariant 0 <= k <= |ns|
      invariant forall j :: 0 <= j < k ==> acc[ns[j]]
    {
      if !acc[ns[k]] {
        onFront := true;
        break;
      }
      k := k + 1;
    }
  }
}
