/**
 * The RFT (repeat formation tester) output of the Eclipse writer: which wells get an RFT node
 * at a report step, which of their completions become cells of that node, and the map from
 * global (Cartesian) cell indices back to active cell indices that the filter relies on.
 * The nodes are returned as values; the ERT library calls that allocate and write them are
 * not modelled.
 */
module RftHandler {

  /** A completion's (i, j, k) Cartesian coordinates. */
  datatype Completion = Completion(i: nat, j: nat, k: nat)

  /** What the writer asks of the Eclipse grid: its Cartesian size, global index and cell depth. */
  datatype EclipseGrid = EclipseGrid(cartesianSize: nat,
                                     globalIndex: (nat, nat, nat) -> nat,
                                     cellDepth: (nat, nat, nat) -> real)

  /** A well: its name, its RFT and PLT flags and its completions, each as a function of the report step. */
  datatype Well = Well(name: string,
                       rftActive: nat -> bool,
                       pltActive: nat -> bool,
                       completions: nat -> seq<Completion>)

  /** What the writer asks of the simulator timer: step number, POSIX time and elapsed days. */
  datatype Timer = Timer(currentStepNum: nat, currentPosixTime: int, elapsedDays: real)

  /** One cell of an RFT node: coordinates, depth, pressure, water and gas saturation. */
  datatype RftCell = RftCell(i: nat, j: nat, k: nat, depth: real, pressure: real, swat: real, sgas: real)

  /** An RFT node: the well, the kind of record ("RFT"), recording date, days and cells. */
  datatype RftNode = RftNode(wellName: string, kind: string, recordingDate: int, days: real, cells: seq<RftCell>)

  /** The compressed-to-Cartesian map names only cells of the Cartesian grid. */
  predicate CompressedInRange(compressed: seq<int>, activeSize: nat, cartesianSize: nat)
  {
    activeSize <= |compressed| && forall a :: 0 <= a < activeSize ==> 0 <= compressed[a] < cartesianSize
  }

  /**
   * The active index that global cell g receives from the first n active cells: the last
   * active cell mapped to g, or -1 when none is.
   */
  function GlobalToActive(compressed: seq<int>, n: nat, g: int): (a: int)
    requires n <= |compressed|
    ensures -1 <= a < n
    ensures a == -1 <==> forall b :: 0 <= b < n ==> compressed[b] != g
    ensures a >= 0 ==> compressed[a] == g && forall b :: a < b < n ==> compressed[b] != g
  {
    if n == 0 then -1
    else if compressed[n - 1] == g then n - 1
    else GlobalToActive(compressed, n - 1, g)
  }

  /** The whole global-to-active table over the Cartesian grid. */
  function GlobalToActiveTable(compressed: seq<int>, activeSize: nat, cartesianSize: nat): seq<int>
    requires activeSize <= |compressed|
  {
    seq(cartesianSize, g => GlobalToActive(compressed, activeSize, g))
  }

  /**
   * getGlobalToActiveIndex: a table of cartesianSize entries, all -1, then entry
   * compressed[a] set to a for each active cell a in turn.
   */
  method GetGlobalToActiveIndex(compressed: seq<int>, activeSize: nat, cartesianSize: nat) returns (table: seq<int>)
    requires CompressedInRange(compressed, activeSize, cartesianSize)
    ensures table == GlobalToActiveTable(compressed, activeSize, cartesianSize)
    ensures |table| == cartesianSize
    ensures forall g :: 0 <= g < cartesianSize ==> -1 <= table[g] < activeSize
  {
    var globalToActive := new int[cartesianSize](_ => -1);
    var activeIndex := 0;
    while activeIndex < activeSize
      invariant 0 <= activeIndex <= activeSize
      invariant forall g :: 0 <= g < cartesianSize ==> globalToActive[g] == GlobalToActive(compressed, activeIndex, g)
    {
      var globalIndex := compressed[activeIndex];
      globalToActive[globalIndex] := activeIndex;
      activeIndex := activeIndex + 1;
    }
    table := globalToActive[..];
  }

  /** The compressed map names each Cartesian cell at most once. */
  predicate Injective(compressed: seq<int>, n: nat)
    requires n <= |compressed|
  {
    forall a, b :: 0 <= a < b < n ==> compressed[a] != compressed[b]
  }

  /** For an injective compressed map the table is a left inverse: active cell a maps back to a. */
  lemma {:induction false} LeftInverse(compressed: seq<int>, n: nat, a: nat)
    requires n <= |compressed| && Injective(compressed, n) && a < n
    ensures GlobalToActive(compressed, n, compressed[a]) == a
  {
    if a < n - 1 {
      assert compressed[n - 1] != compressed[a];
      LeftInverse(compressed, n - 1, a);
    }
  }

  /** The completion's global index names a cell of the Cartesian grid. */
  predicate InGrid(c: Completion, grid: EclipseGrid)
  {
    grid.globalIndex(c.i, c.j, c.k) < grid.cartesianSize
  }

  /** Every completion lies in the Cartesian grid. */
  predicate CompletionsInGrid(cs: seq<Completion>, grid: EclipseGrid)
  {
    forall m :: 0 <= m < |cs| ==> InGrid(cs[m], grid)
  }

  /** The completion's global cell has an active index in the table. */
  predicate IsActive(c: Completion, grid: EclipseGrid, table: seq<int>)
    requires InGrid(c, grid) && |table| == grid.cartesianSize
  {
    table[grid.globalIndex(c.i, c.j, c.k)] > -1
  }

  /** A field vector either empty or holding a value for every active cell. */
  predicate FieldSized(v: seq<real>, activeSize: nat)
  {
    |v| == 0 || activeSize <= |v|
  }

  /** A field at an active index: 0.0 when the vector is empty. */
  function FieldAt(v: seq<real>, index: nat): real
    requires |v| == 0 || index < |v|
  {
    if |v| > 0 then v[index] else 0.0
  }

  /** What createEclRFTNode needs: a table over the grid with entries in [-1, activeSize), fields sized. */
  predicate NodeInputs(grid: EclipseGrid, table: seq<int>, activeSize: nat,
                       pressure: seq<real>, swat: seq<real>, sgas: seq<real>)
  {
    && |table| == grid.cartesianSize
    && (forall g :: 0 <= g < |table| ==> -1 <= table[g] < activeSize)
    && FieldSized(pressure, activeSize) && FieldSized(swat, activeSize) && FieldSized(sgas, activeSize)
  }

  /** The RFT cell of an active completion. */
  function CellOf(c: Completion, grid: EclipseGrid, table: seq<int>, activeSize: nat,
                  pressure: seq<real>, swat: seq<real>, sgas: seq<real>): RftCell
    requires NodeInputs(grid, table, activeSize, pressure, swat, sgas) && InGrid(c, grid) && IsActive(c, grid, table)
  {
    var index := table[grid.globalIndex(c.i, c.j, c.k)];
    RftCell(c.i, c.j, c.k, grid.cellDepth(c.i, c.j, c.k),
            FieldAt(pressure, index), FieldAt(swat, index), FieldAt(sgas, index))
  }

  /** The cells of an RFT node: one per completion in an active cell, in completion order. */
  function RftCells(cs: seq<Completion>, grid: EclipseGrid, table: seq<int>, activeSize: nat,
                    pressure: seq<real>, swat: seq<real>, sgas: seq<real>): (cells: seq<RftCell>)
    requires NodeInputs(grid, table, activeSize, pressure, swat, sgas) && CompletionsInGrid(cs, grid)
    ensures |cells| <= |cs|
  {
    if cs == [] then []
    else
      var rest := RftCells(cs[..|cs| - 1], grid, table, activeSize, pressure, swat, sgas);
      var c := cs[|cs| - 1];
      if IsActive(c, grid, table) then rest + [CellOf(c, grid, table, activeSize, pressure, swat, sgas)]
      else rest
  }

  /** Every cell of the node comes from a completion in an active cell. */
  lemma {:induction false} RftCellsSound(cs: seq<Completion>, grid: EclipseGrid, table: seq<int>, activeSize: nat,
                                         pressure: seq<real>, swat: seq<real>, sgas: seq<real>)
    requires NodeInputs(grid, table, activeSize, pressure, swat, sgas) && CompletionsInGrid(cs, grid)
    ensures forall x :: x in RftCells(cs, grid, table, activeSize, pressure, swat, sgas) ==>
              exists m :: 0 <= m < |cs| && IsActive(cs[m], grid, table)
                          && x == CellOf(cs[m], grid, table, activeSize, pressure, swat, sgas)
  {
    if cs != [] {
      var cs' := cs[..|cs| - 1];
      RftCellsSound(cs', grid, table, activeSize, pressure, swat, sgas);
      forall x | x in RftCells(cs, grid, table, activeSize, pressure, swat, sgas)
        ensures exists m :: 0 <= m < |cs| && IsActive(cs[m], grid, table)
                            && x == CellOf(cs[m], grid, table, activeSize, pressure, swat, sgas)
      {
        if x in RftCells(cs', grid, table, activeSize, pressure, swat, sgas) {
          var m :| 0 <= m < |cs'| && IsActive(cs'[m], grid, table)
                   && x == CellOf(cs'[m], grid, table, activeSize, pressure, swat, sgas);
          assert cs'[m] == cs[m];
        } else {
          assert x == CellOf(cs[|cs| - 1], grid, table, activeSize, pressure, swat, sgas);
        }
      }
    }
  }

  /** Every completion in an active cell gives a cell of the node. */
  lemma {:induction false} RftCellsComplete(cs: seq<Completion>, grid: EclipseGrid, table: seq<int>, activeSize: nat,
                                            pressure: seq<real>, swat: seq<real>, sgas: seq<real>)
    requires NodeInputs(grid, table, activeSize, pressure, swat, sgas) && CompletionsInGrid(cs, grid)
    ensures forall m :: 0 <= m < |cs| && IsActive(cs[m], grid, table) ==>
              CellOf(cs[m], grid, table, activeSize, pressure, swat, sgas)
              in RftCells(cs, grid, table, activeSize, pressure, swat, sgas)
  {
    if cs != [] {
      var cs' := cs[..|cs| - 1];
      RftCellsComplete(cs', grid, table, activeSize, pressure, swat, sgas);
      forall m | 0 <= m < |cs| - 1
        ensures cs'[m] == cs[m]
      {
      }
    }
  }

  /** The filter runs completion by completion: the cells of a concatenation are the concatenated cells. */
  lemma {:induction false} RftCellsConcat(cs: seq<Completion>, ds: seq<Completion>, grid: EclipseGrid, table: seq<int>,
                                          activeSize: nat, pressure: seq<real>, swat: seq<real>, sgas: seq<real>)
    requires NodeInputs(grid, table, activeSize, pressure, swat, sgas)
    requires CompletionsInGrid(cs, grid) && CompletionsInGrid(ds, grid)
    ensures RftCells(cs + ds, grid, table, activeSize, pressure, swat, sgas)
            == RftCells(cs, grid, table, activeSize, pressure, swat, sgas)
               + RftCells(ds, grid, table, activeSize, pressure, swat, sgas)
    decreases |ds|
  {
    if ds == [] {
      assert cs + ds == cs;
    } else {
      var ds' := ds[..|ds| - 1];
      assert (cs + ds)[..|cs + ds| - 1] == cs + ds';
      RftCellsConcat(cs, ds', grid, table, activeSize, pressure, swat, sgas);
    }
  }

  /** No completion in an active cell: the node has no cells. */
  lemma {:induction false} RftCellsNoneActive(cs: seq<Completion>, grid: EclipseGrid, table: seq<int>, activeSize: nat,
                                              pressure: seq<real>, swat: seq<real>, sgas: seq<real>)
    requires NodeInputs(grid, table, activeSize, pressure, swat, sgas) && CompletionsInGrid(cs, grid)
    ensures RftCells(cs, grid, table, activeSize, pressure, swat, sgas) == []
            <==> forall m :: 0 <= m < |cs| ==> !IsActive(cs[m], grid, table)
  {
    var cells := RftCells(cs, grid, table, activeSize, pressure, swat, sgas);
    RftCellsSound(cs, grid, table, activeSize, pressure, swat, sgas);
    RftCellsComplete(cs, grid, table, activeSize, pressure, swat, sgas);
    if cells != [] {
      assert cells[0] in cells;
    }
  }

  /** Every completion in an active cell: one cell per completion, in order. */
  lemma {:induction false} RftCellsAllActive(cs: seq<Completion>, grid: EclipseGrid, table: seq<int>, activeSize: nat,
                                             pressure: seq<real>, swat: seq<real>, sgas: seq<real>)
    requires NodeInputs(grid, table, activeSize, pressure, swat, sgas) && CompletionsInGrid(cs, grid)
    requires forall m :: 0 <= m < |cs| ==> IsActive(cs[m], grid, table)
    ensures |RftCells(cs, grid, table, activeSize, pressure, swat, sgas)| == |cs|
    ensures forall m :: 0 <= m < |cs| ==>
              RftCells(cs, grid, table, activeSize, pressure, swat, sgas)[m]
              == CellOf(cs[m], grid, table, activeSize, pressure, swat, sgas)
  {
    if cs != [] {
      var cs' := cs[..|cs| - 1];
      assert forall m :: 0 <= m < |cs'| ==> cs'[m] == cs[m];
      RftCellsAllActive(cs', grid, table, activeSize, pressure, swat, sgas);
    }
  }

  /** What the writer passes down for every well: the grid, the compressed map and the field vectors. */
  predicate WriterInputs(grid: EclipseGrid, numCells: nat, compressed: seq<int>,
                         pressure: seq<real>, swat: seq<real>, sgas: seq<real>)
  {
    && CompressedInRange(compressed, numCells, grid.cartesianSize)
    && FieldSized(pressure, numCells) && FieldSized(swat, numCells) && FieldSized(sgas, numCells)
  }

  /** The RFT node of one well at the timer's step. */
  function NodeFor(well: Well, timer: Timer, grid: EclipseGrid, numCells: nat, compressed: seq<int>,
                   pressure: seq<real>, swat: seq<real>, sgas: seq<real>): (node: RftNode)
    requires WriterInputs(grid, numCells, compressed, pressure, swat, sgas)
    requires CompletionsInGrid(well.completions(timer.currentStepNum), grid)
  {
    var table := GlobalToActiveTable(compressed, numCells, grid.cartesianSize);
    RftNode(well.name, "RFT", timer.currentPosixTime, timer.elapsedDays,
            RftCells(well.completions(timer.currentStepNum), grid, table, numCells, pressure, swat, sgas))
  }

  /**
   * createEclRFTNode: build the global-to-active table, then append one cell per completion of
   * the well at the current step whose global cell is active.
   */
  method CreateEclRftNode(well: Well, timer: Timer, grid: EclipseGrid, numCells: nat, compressed: seq<int>,
                          pressure: seq<real>, swat: seq<real>, sgas: seq<real>) returns (node: RftNode)
    requires WriterInputs(grid, numCells, compressed, pressure, swat, sgas)
    requires CompletionsInGrid(well.completions(timer.currentStepNum), grid)
    ensures node == NodeFor(well, timer, grid, numCells, compressed, pressure, swat, sgas)
  {
    var timestep := timer.currentStepNum;
    var table := GetGlobalToActiveIndex(compressed, numCells, grid.cartesianSize);
    var cells: seq<RftCell> := [];
    var completions := well.completions(timestep);
    var index := 0;
    while index < |completions|
      invariant 0 <= index <= |completions|
      invariant cells == RftCells(completions[..index], grid, table, numCells, pressure, swat, sgas)
    {
      var completion := completions[index];
      var globalIndex := grid.globalIndex(completion.i, completion.j, completion.k);
      var activeIndex := table[globalIndex];
      assert completions[..index + 1][..index] == completions[..index];
      if activeIndex > -1 {
        var depth := grid.cellDepth(completion.i, completion.j, completion.k);
        var completionPressure := if |pressure| > 0 then pressure[activeIndex] else 0.0;
        var saturationWater := if |swat| > 0 then swat[activeIndex] else 0.0;
        var saturationGas := if |sgas| > 0 then sgas[activeIndex] else 0.0;
        cells := cells + [RftCell(completion.i, completion.j, completion.k, depth,
                                  completionPressure, saturationWater, saturationGas)];
      }
      index := index + 1;
    }
    assert completions[..index] == completions;
    node := RftNode(well.name, "RFT", timer.currentPosixTime, timer.elapsedDays, cells);
  }

  /** A well gets an RFT node at step n when its RFT or its PLT flag is set there. */
  predicate Selected(well: Well, n: nat)
  {
    well.rftActive(n) || well.pltActive(n)
  }

  /** The completions of every selected well lie in the Cartesian grid. */
  predicate SelectedInGrid(wells: seq<Well>, n: nat, grid: EclipseGrid)
  {
    forall w :: 0 <= w < |wells| && Selected(wells[w], n) ==> CompletionsInGrid(wells[w].completions(n), grid)
  }

  /** Every prefix of the wells keeps their completions in the grid. */
  lemma SelectedPrefix(wells: seq<Well>, k: nat, n: nat, grid: EclipseGrid)
    requires k <= |wells| && SelectedInGrid(wells, n, grid)
    ensures SelectedInGrid(wells[..k], n, grid)
  {
    forall w | 0 <= w < k && Selected(wells[..k][w], n)
      ensures CompletionsInGrid(wells[..k][w].completions(n), grid)
    {
      assert wells[..k][w] == wells[w];
    }
  }

  /** The nodes of writeTimeStep: one per selected well, in well order. */
  function RftNodes(wells: seq<Well>, timer: Timer, grid: EclipseGrid, numCells: nat, compressed: seq<int>,
                    pressure: seq<real>, swat: seq<real>, sgas: seq<real>): (nodes: seq<RftNode>)
    requires WriterInputs(grid, numCells, compressed, pressure, swat, sgas)
    requires SelectedInGrid(wells, timer.currentStepNum, grid)
    ensures |nodes| <= |wells|
  {
    if wells == [] then []
    else
      var rest := RftNodes(wells[..|wells| - 1], timer, grid, numCells, compressed, pressure, swat, sgas);
      var w := wells[|wells| - 1];
      if Selected(w, timer.currentStepNum) then
        rest + [NodeFor(w, timer, grid, numCells, compressed, pressure, swat, sgas)]
      else rest
  }

  /** Some node is built exactly when some well is selected. */
  lemma {:induction false} RftNodesNonEmpty(wells: seq<Well>, timer: Timer, grid: EclipseGrid, numCells: nat,
                                            compressed: seq<int>, pressure: seq<real>, swat: seq<real>, sgas: seq<real>)
    requires WriterInputs(grid, numCells, compressed, pressure, swat, sgas)
    requires SelectedInGrid(wells, timer.currentStepNum, grid)
    ensures |RftNodes(wells, timer, grid, numCells, compressed, pressure, swat, sgas)| > 0
            <==> exists w :: 0 <= w < |wells| && Selected(wells[w], timer.currentStepNum)
  {
    if wells != [] {
      var ws := wells[..|wells| - 1];
      RftNodesNonEmpty(ws, timer, grid, numCells, compressed, pressure, swat, sgas);
      forall w | 0 <= w < |ws|
        ensures ws[w] == wells[w]
      {
      }
    }
  }

  /** Every node is the node of a selected well. */
  lemma {:induction false} RftNodesSound(wells: seq<Well>, timer: Timer, grid: EclipseGrid, numCells: nat,
                                         compressed: seq<int>, pressure: seq<real>, swat: seq<real>, sgas: seq<real>)
    requires WriterInputs(grid, numCells, compressed, pressure, swat, sgas)
    requires SelectedInGrid(wells, timer.currentStepNum, grid)
    ensures forall x :: x in RftNodes(wells, timer, grid, numCells, compressed, pressure, swat, sgas) ==>
              exists w :: 0 <= w < |wells| && Selected(wells[w], timer.currentStepNum)
                          && x == NodeFor(wells[w], timer, grid, numCells, compressed, pressure, swat, sgas)
  {
    if wells != [] {
      var ws := wells[..|wells| - 1];
      RftNodesSound(ws, timer, grid, numCells, compressed, pressure, swat, sgas);
      forall x | x in RftNodes(wells, timer, grid, numCells, compressed, pressure, swat, sgas)
        ensures exists w :: 0 <= w < |wells| && Selected(wells[w], timer.currentStepNum)
                            && x == NodeFor(wells[w], timer, grid, numCells, compressed, pressure, swat, sgas)
      {
        if x in RftNodes(ws, timer, grid, numCells, compressed, pressure, swat, sgas) {
          var w :| 0 <= w < |ws| && Selected(ws[w], timer.currentStepNum)
                   && x == NodeFor(ws[w], timer, grid, numCells, compressed, pressure, swat, sgas);
          assert ws[w] == wells[w];
        } else {
          assert x == NodeFor(wells[|wells| - 1], timer, grid, numCells, compressed, pressure, swat, sgas);
        }
      }
    }
  }

  /** Well selection runs well by well: the nodes of a concatenation are the concatenated nodes. */
  lemma {:induction false} RftNodesConcat(ws: seq<Well>, vs: seq<Well>, timer: Timer, grid: EclipseGrid, numCells: nat,
                                          compressed: seq<int>, pressure: seq<real>, swat: seq<real>, sgas: seq<real>)
    requires WriterInputs(grid, numCells, compressed, pressure, swat, sgas)
    requires SelectedInGrid(ws, timer.currentStepNum, grid) && SelectedInGrid(vs, timer.currentStepNum, grid)
    ensures RftNodes(ws + vs, timer, grid, numCells, compressed, pressure, swat, sgas)
            == RftNodes(ws, timer, grid, numCells, compressed, pressure, swat, sgas)
               + RftNodes(vs, timer, grid, numCells, compressed, pressure, swat, sgas)
    decreases |vs|
  {
    if vs == [] {
      assert ws + vs == ws;
    } else {
      var vs' := vs[..|vs| - 1];
      assert (ws + vs)[..|ws + vs| - 1] == ws + vs';
      RftNodesConcat(ws, vs', timer, grid, numCells, compressed, pressure, swat, sgas);
    }
  }

  /**
   * writeTimeStep: the nodes of the selected wells in well order, and whether the RFT file is
   * updated, which happens exactly when at least one node was built.
   */
  method WriteTimeStep(timer: Timer, wells: seq<Well>, grid: EclipseGrid, numCells: nat, compressed: seq<int>,
                       pressure: seq<real>, swat: seq<real>, sgas: seq<real>)
    returns (nodes: seq<RftNode>, updated: bool)
    requires WriterInputs(grid, numCells, compressed, pressure, swat, sgas)
    requires SelectedInGrid(wells, timer.currentStepNum, grid)
    ensures nodes == RftNodes(wells, timer, grid, numCells, compressed, pressure, swat, sgas)
    ensures updated <==> exists w :: 0 <= w < |wells| && Selected(wells[w], timer.currentStepNum)
  {
    nodes := [];
    var ci := 0;
    while ci < |wells|
      invariant 0 <= ci <= |wells|
      invariant SelectedInGrid(wells[..ci], timer.currentStepNum, grid)
      invariant nodes == RftNodes(wells[..ci], timer, grid, numCells, compressed, pressure, swat, sgas)
    {
      var well := wells[ci];
      SelectedPrefix(wells, ci + 1, timer.currentStepNum, grid);
      assert wells[..ci + 1][..ci] == wells[..ci] && wells[..ci + 1][ci] == well;
      if well.rftActive(timer.currentStepNum) || well.pltActive(timer.currentStepNum) {
        var node := CreateEclRftNode(well, timer, grid, numCells, compressed, pressure, swat, sgas);
        nodes := nodes + [node];
      }
      ci := ci + 1;
    }
    assert wells[..ci] == wells;
    RftNodesNonEmpty(wells, timer, grid, numCells, compressed, pressure, swat, sgas);
    updated := |nodes| > 0;
  }
}
