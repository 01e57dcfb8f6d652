# Ordered-upwind eikonal solver, RFT active-index filter and two-phase saturation helpers

This Dafny project models three pieces of the OPM core library (Open Porous Media).

* **`AnisotropicEikonal2d`** (`eikonal.dfy`, `eikonal_local.dfy`) is the time-of-flight solver that follows the Ordered Upwind Method. The model is a class whose fields are those of the C++ object:
  * the Accepted and Considered flags;
  * the Considered min-heap, modelled as a map from handle to `(value, cell)` entry;
  * the per-cell heap handles;
  * the accepted front.

  One field exists only in the model: `nextHandle`, the next handle the heap hands out. It stands for the heap's handle allocation, so every live handle is below it.

  `Solve` runs the source's steps in order:
  * steps 1-2 reset the state and accept the start cells;
  * step 3 seeds the neighbours of the start cells;
  * steps 4-7 are the main loop: pop a least entry, accept its cell, prune the front, queue the cell's Far neighbours (neither accepted nor queued) and re-evaluate the queued cells.

  `computeValue` is a method with the source's two min-fold loops, proved equal to the recursive specification `LocalValue`. The geometry routines are stubs in the source and keep their constants: `computeFromTri` returns 1.0, `computeFromLine` returns 2.0 and `isClose` returns true.
* **`EclipseWriteRFTHandler`** (`rft.dfy`) builds the global-to-active index table. It then selects the wells whose RFT or PLT flag is set, and keeps the completions that lie in active cells. The RFT nodes are returned as values.
* **The `spu_2p` example helpers** (`spu2p.dfy`) cover four things:
  * conversion between water-only and interleaved (water, oil) saturation arrays;
  * the initial `ReservoirState`;
  * `numPhases`;
  * the pore-volume computation.

`wrappers.dfy` holds the `Result` type that the solver's constructor uses to report a grid that is not 2-dimensional.

Most arrays and vectors of the source are `seq`s. The conversion, pore-volume and global-to-active loops write into a local `array`. The RFT node loops, the `ReservoirState` constructor's loop and the solver's loops update `seq` values. Floating-point values are `real`s.

## Model

| member | source | states |
|---|---|---|
| Eikonal.NewSolver | opm/core/tof/AnisotropicEikonal.cpp:30-38 | fails (logic_error) exactly when the grid is not 2-dimensional; otherwise a fresh solver holding the grid's cell count and neighbour lists |
| Eikonal.AnisotropicEikonal2d.TopConsidered | opm/core/tof/AnisotropicEikonal.cpp:235-238 | returns an entry of least value in the heap; its cell is flagged Considered and the entry is under that cell's handle |
| Eikonal.AnisotropicEikonal2d.PushConsidered | opm/core/tof/AnisotropicEikonal.cpp:244-249 | adds the entry under a fresh handle, records the handle for the cell and flags it Considered; one entry and one handle per cell is kept |
| Eikonal.AnisotropicEikonal2d.PopConsidered | opm/core/tof/AnisotropicEikonal.cpp:255-260 | removes the top entry, and clears the popped cell's handle and its Considered flag, nothing else |
| Eikonal.AnisotropicEikonal2d.Increase | opm/core/tof/AnisotropicEikonal.cpp:150 | replaces the entry at a handle with one for the same cell whose value is no larger |
| Eikonal.AnisotropicEikonal2d.PruneFront | opm/core/tof/AnisotropicEikonal.cpp:110-126 | the front keeps exactly those cells that still have a neighbour that is not accepted |
| Eikonal.AnisotropicEikonal2d.ConsiderNeighbour | opm/core/tof/AnisotropicEikonal.cpp:92-97 | queues the neighbour with computeValue's value exactly when it is neither accepted nor queued; otherwise nothing changes. The source's assertion that such a cell's solution is still the sentinel holds |
| Eikonal.AnisotropicEikonal2d.PushNeighbours | opm/core/tof/AnisotropicEikonal.cpp:128-136 | afterwards every neighbour of the cell is accepted or queued. Existing entries are unchanged. Each new entry is for a neighbour and holds computeValue's value |
| Eikonal.AnisotropicEikonal2d.Reevaluate | opm/core/tof/AnisotropicEikonal.cpp:141-152 | replaces the queued entry with its re-evaluation after the acceptance of r; flags, handles and front stay unchanged |
| Eikonal.AnisotropicEikonal2d.RecomputeConsidered | opm/core/tof/AnisotropicEikonal.cpp:138-153 | every queued entry becomes its re-evaluation; the same handles stay queued |
| Eikonal.Reevaluated | opm/core/tof/AnisotropicEikonal.cpp:142-151 | a re-evaluated entry keeps its cell and never increases. It changes only to a strictly smaller value, and then to computeValue's value |
| Eikonal.AnisotropicEikonal2d.AcceptStartCells | opm/core/tof/AnisotropicEikonal.cpp:66-85 | the heap is empty and nothing is queued. Exactly the start cells are accepted, with value 0; every other cell holds the sentinel. The front is the set of start cells |
| Eikonal.AnisotropicEikonal2d.Seed | opm/core/tof/AnisotropicEikonal.cpp:87-99 | establishes the main-loop invariant `Progress` with an empty acceptance record. The front is the set of start cells. Every queued entry is for a neighbour of a start cell and holds computeValue's value for that front |
| Eikonal.AnisotropicEikonal2d.QueueStartNeighbours | opm/core/tof/AnisotropicEikonal.cpp:89-99 | after the loop every neighbour of a start cell is accepted or queued. Each queued entry is for a neighbour of a start cell, at computeValue's value; flags and front are unchanged |
| Eikonal.AnisotropicEikonal2d.PopLeast | opm/core/tof/AnisotropicEikonal.cpp:102-110 | the popped entry r is the entry at handle h and has the least value among the queued entries. The heap loses exactly h and the handle map exactly r's cell; every other entry and handle is unchanged. r's cell was not accepted, is now accepted and no longer queued, and it joins the front |
| Eikonal.AnisotropicEikonal2d.AcceptTop | opm/core/tof/AnisotropicEikonal.cpp:102-126 | as PopLeast, with the same exact new heap and handle map. In addition, after pruning, the front is exactly the set of accepted cells with a neighbour that is not accepted |
| Eikonal.AnisotropicEikonal2d.AcceptNext | opm/core/tof/AnisotropicEikonal.cpp:101-156 | one pass of the main loop keeps `Progress`. It pops the entry r at handle h, which has the least queued value, accepts r's previously unaccepted cell and sets its solution to r's value. Only that flag changes to true, and the count of unaccepted cells drops by one. The front is exactly the set of accepted cells with an unaccepted neighbour. The new heap is exact: h is gone; every other old entry keeps its handle and becomes its re-evaluation, so no value increases; every new entry is for a neighbour of r's cell, at computeValue's value |
| Eikonal.AnisotropicEikonal2d.QueueAndReevaluate | opm/core/tof/AnisotropicEikonal.cpp:128-153 | steps 6 and 7: every neighbour of r ends accepted or queued. Each old entry keeps its handle and becomes its re-evaluation. Each new entry has a fresh handle, is for a neighbour of r and holds computeValue's value. Queued values stay values computeValue produced |
| Eikonal.AnisotropicEikonal2d.Solve | opm/core/tof/AnisotropicEikonal.cpp:44-158 | terminates with the heap and the handle map empty and no cell flagged Considered. The solution has one entry per cell and every start cell is 0. A cell holds the sentinel exactly when it was never accepted, and every neighbour of an accepted cell is accepted. Every other accepted cell holds a value computeValue produced for it, a triangle or line candidate of its neighbours. At most numCells cells are accepted by the loop. Every cell of an island, a neighbour-closed set with no start cell, stays unaccepted at the sentinel |
| Eikonal.CountUnaccepted | opm/core/tof/AnisotropicEikonal.cpp:101 | the loop variant is bounded by the number of cells |
| Eikonal.CountAfterAccept | opm/core/tof/AnisotropicEikonal.cpp:106-107 | accepting an unaccepted cell lowers the count of unaccepted cells by exactly one |
| Eikonal.FrontAfterAccept | opm/core/tof/AnisotropicEikonal.cpp:106-110 | after accepting r, the exact front lies within the old front plus r |
| Eikonal.PrunedFront | opm/core/tof/AnisotropicEikonal.cpp:110-126 | keeping the cells with an unaccepted neighbour leaves exactly the front, provided the starting set contains the front and holds only accepted cells |
| Eikonal.BordersFromFront | opm/core/tof/AnisotropicEikonal.cpp:184-193 | given symmetric neighbour lists, every accepted neighbour of an unaccepted cell lies on the front |
| Eikonal.MinEntryExists | opm/core/tof/AnisotropicEikonal.cpp:235-238 | a non-empty heap has an entry of least value |
| Eikonal.LeastIsLeastValue | opm/core/tof/AnisotropicEikonal.cpp:102-103 | a least entry is one of the heap's values and no value is below it |
| Eikonal.SupportedAfterAccept | opm/core/tof/AnisotropicEikonal.cpp:107-109 | accepting r and un-queuing it leaves every queued cell with an accepted neighbour |
| Eikonal.AcceptedCellsAfterAccept | opm/core/tof/AnisotropicEikonal.cpp:107 | accepting r adds exactly r to the accepted cells |
| Eikonal.SolutionAfterAccept | opm/core/tof/AnisotropicEikonal.cpp:107-108 | accepting r with a finite value keeps "accepted exactly when below the sentinel", and keeps the start cells at 0 |
| Eikonal.OrderAfterAccept | opm/core/tof/AnisotropicEikonal.cpp:106-108 | the acceptance record extended by r still lists distinct accepted non-start cells at their values. With the start cells, it is exactly the accepted set |
| Eikonal.ClosedAfterAccept | opm/core/tof/AnisotropicEikonal.cpp:128-136 | once r's neighbours have been queued, every neighbour of an accepted cell is accepted or queued |
| Eikonal.ReevaluatedStep | opm/core/tof/AnisotropicEikonal.cpp:140-153 | re-evaluating the entry at handle hh extends the re-evaluated part of the heap past hh |
| Eikonal.ProducedAfterStep | opm/core/tof/AnisotropicEikonal.cpp:128-153 | when every queued value is one computeValue produced, this still holds after steps 6 and 7 |
| Eikonal.OrderProducedAfterAccept | opm/core/tof/AnisotropicEikonal.cpp:102-108 | recording a popped entry keeps every recorded value one that computeValue produced |
| Eikonal.OrderSupportedAfterAccept | opm/core/tof/AnisotropicEikonal.cpp:102-108 | recording a queued cell keeps the acceptance record supported: each recorded cell has a neighbour that is a start cell or was recorded earlier |
| Eikonal.IslandNotRecorded | opm/core/tof/AnisotropicEikonal.cpp:101-156 | no cell of an island is ever recorded as accepted |
| Eikonal.IslandStaysAtSentinel | opm/core/tof/AnisotropicEikonal.cpp:66-158 | every cell of an island is unaccepted and holds the sentinel |
| Eikonal.SolvedValues | opm/core/tof/AnisotropicEikonal.cpp:44-158 | in the final state an accepted cell other than a start cell holds a value computeValue produced, and every cell of an island is unaccepted at the sentinel |
| Eikonal.AnyUnaccepted | opm/core/tof/AnisotropicEikonal.cpp:114-120 | the on_front scan returns true exactly when some neighbour is not accepted |
| LocalUpdate.Min | opm/core/tof/AnisotropicEikonal.cpp:186 | std::min yields one of its arguments and is no larger than either |
| LocalUpdate.ComputeFromTri | opm/core/tof/AnisotropicEikonal.cpp:220-229 | the triangle update returns the source's constant 1.0 |
| LocalUpdate.ComputeFromLine | opm/core/tof/AnisotropicEikonal.cpp:207-214 | the line update returns the source's constant 2.0 |
| LocalUpdate.IsClose | opm/core/tof/AnisotropicEikonal.cpp:164-169 | the proximity test returns the source's constant true, so every queued cell is re-evaluated |
| LocalUpdate.TriMinIsMinimum | opm/core/tof/AnisotropicEikonal.cpp:181-188 | the pair fold is the sentinel when no consecutive pair is on the front; otherwise it is the least triangle candidate over the qualifying pairs |
| LocalUpdate.LineMinIsMinimum | opm/core/tof/AnisotropicEikonal.cpp:189-198 | the single-neighbour fold is the sentinel when no neighbour is on the front; otherwise it is the least line candidate over the front neighbours |
| LocalUpdate.LocalValueSpec | opm/core/tof/AnisotropicEikonal.cpp:175-201 | computeValue is the least triangle candidate when a front pair exists, and otherwise the least line candidate. It is the sentinel exactly when no neighbour is on the front |
| LocalUpdate.LocalValueFinite | opm/core/tof/AnisotropicEikonal.cpp:199 | the assertion `val != inf` holds whenever some neighbour is on the front |
| LocalUpdate.LocalValueProduced | opm/core/tof/AnisotropicEikonal.cpp:175-201 | a finite computeValue result is a triangle candidate of a consecutive pair or a line candidate of a neighbour |
| LocalUpdate.ProducedByStubs | opm/core/tof/AnisotropicEikonal.cpp:207-229 | with the source's constant updates, every value computeValue produces is 1 or 2 |
| LocalUpdate.ComputeValue | opm/core/tof/AnisotropicEikonal.cpp:175-229 | the two loops compute LocalValue. The assertions of computeFromTri and computeFromLine hold at every call: the cell is not accepted and the neighbours used are accepted |
| RftHandler.GlobalToActive | opm/core/io/eclipse/EclipseWriteRFTHandler.cpp:133-141 | an entry is in [-1, n). It is -1 exactly when no active cell maps to the global cell; otherwise it is the last active cell that does |
| RftHandler.GetGlobalToActiveIndex | opm/core/io/eclipse/EclipseWriteRFTHandler.cpp:133-141 | the table has cartesianSize entries, each in [-1, activeSize) and equal to GlobalToActive of its global index |
| RftHandler.LeftInverse | opm/core/io/eclipse/EclipseWriteRFTHandler.cpp:135-138 | for an injective compressed map, every active cell a maps back to a |
| RftHandler.RftCells | opm/core/io/eclipse/EclipseWriteRFTHandler.cpp:108-127 | a node gets at most one cell per completion |
| RftHandler.RftCellsSound | opm/core/io/eclipse/EclipseWriteRFTHandler.cpp:108-127 | every cell of the node is the cell of a completion that lies in an active cell |
| RftHandler.RftCellsComplete | opm/core/io/eclipse/EclipseWriteRFTHandler.cpp:108-127 | every completion in an active cell contributes its cell |
| RftHandler.RftCellsConcat | opm/core/io/eclipse/EclipseWriteRFTHandler.cpp:109-127 | the filter preserves completion order: the cells of a concatenation are the concatenated cells |
| RftHandler.RftCellsNoneActive | opm/core/io/eclipse/EclipseWriteRFTHandler.cpp:118 | a node has no cells exactly when no completion lies in an active cell |
| RftHandler.RftCellsAllActive | opm/core/io/eclipse/EclipseWriteRFTHandler.cpp:108-127 | when every completion is active, the cells correspond one to one with the completions, in order |
| RftHandler.CreateEclRftNode | opm/core/io/eclipse/EclipseWriteRFTHandler.cpp:88-130 | the node carries the well's name, the kind "RFT", the date and the days. Its cells are those of the completions in active cells, in order. Each cell holds its depth and, for pressure, water and gas saturation, the field's value at the active index, or 0.0 when that field vector is empty |
| RftHandler.RftNodes | opm/core/io/eclipse/EclipseWriteRFTHandler.cpp:59-77 | at most one node per well |
| RftHandler.RftNodesNonEmpty | opm/core/io/eclipse/EclipseWriteRFTHandler.cpp:59-82 | some node is built exactly when some well has its RFT or PLT flag set at the step |
| RftHandler.RftNodesSound | opm/core/io/eclipse/EclipseWriteRFTHandler.cpp:59-77 | every node is the node of a selected well |
| RftHandler.RftNodesConcat | opm/core/io/eclipse/EclipseWriteRFTHandler.cpp:59-77 | nodes follow well order: the nodes of a concatenation are the concatenated nodes |
| RftHandler.WriteTimeStep | opm/core/io/eclipse/EclipseWriteRFTHandler.cpp:46-83 | returns the nodes of the selected wells, in order. The file is updated exactly when some well is selected |
| Spu2p.BothSat | examples/spu_2p.cpp:374-382 | the interleaved array has 2 * \|sw\| entries |
| Spu2p.BothSatLayout | examples/spu_2p.cpp:378-381 | entry 2i is sw[i] and entry 2i+1 is 1 - sw[i] |
| Spu2p.BothSatIsTwoPhase | examples/spu_2p.cpp:379-380 | every (water, oil) pair of the interleaved array sums to 1 |
| Spu2p.WaterOfBoth | examples/spu_2p.cpp:365-382 | toWaterSat(toBothSat(sw)) == sw |
| Spu2p.BothOfWater | examples/spu_2p.cpp:365-382 | for a two-phase array (even length, pairs summing to 1), toBothSat(toWaterSat(s)) == s |
| Spu2p.ToWaterSat | examples/spu_2p.cpp:365-372 | the loop computes WaterSat: \|sboth\|/2 entries, entry i being sboth[2i] |
| Spu2p.ToBothSat | examples/spu_2p.cpp:374-382 | the loop computes BothSat |
| Spu2p.InitialSat | examples/spu_2p.cpp:162 | the saturation array has numPhases * numCells entries |
| Spu2p.InitialSatBlock | examples/spu_2p.cpp:164-166 | every cell's block of numPhases entries is 0 except 1 in the last phase |
| Spu2p.InitialSatEntry | examples/spu_2p.cpp:162-166 | entry numPhases*c + p is 1.0 for the last phase and 0.0 otherwise |
| Spu2p.InitialSaturationsSumToOne | examples/spu_2p.cpp:164-166 | each cell's initial saturations sum to 1 |
| Spu2p.PhasesPerCell | examples/spu_2p.cpp:169 | (numPhases * numCells) / numCells == numPhases when there are cells |
| Spu2p.ReservoirState.constructor | examples/spu_2p.cpp:158-167 | the pressure, face-pressure and flux arrays are zero-filled, and the saturations equal InitialSat |
| Spu2p.ReservoirState.NumPhases | examples/spu_2p.cpp:169 | with at least one cell, numPhases() is the phase count the state was built with |
| Spu2p.PoreVolumeBounds | examples/spu_2p.cpp:263-269 | a porosity in [0, 1] and a non-negative volume give a pore volume between 0 and the cell volume |
| Spu2p.ComputePoreVolume | examples/spu_2p.cpp:258-270 | numCells entries, entry i being poro[i] * cellVolumes[i] |

## Left out

- The metric tensor argument of `solve`, `isClose`, `computeFromTri` and `computeFromLine` is never read by the source, so it is not a parameter of the model.
- `vertexNeighbours` and `orderCounterClockwise` (the grid utilities that build the neighbour lists) are not part of this model. The lists are an input of the constructor.
- The solving methods require the lists to be in range and symmetric (`WellFormedNeighbours`). Symmetry is what makes the `val != inf` assertion of computeValue hold.
- The geometry of the Ordered Upwind Method is not modelled. The triangle update, the line update and the proximity test are the source's constant stubs.
- The boost mutable heap's internals are abstracted away: its comparator, its tie-breaking, the representation of its handles and its iteration order. The heap is a map from handle to entry, and "top" is any entry of least value.
- The step 7 loop visits every queued entry once, in ascending handle order. The source iterates the heap's own ordering while it calls `increase`.
- Eikonal.AnisotropicEikonal2d.Solve: does not claim that cells are accepted in non-decreasing order of value. With the constant stubs a triangle value of 1.0 can be accepted after a line value of 2.0.
- Eikonal.AnisotropicEikonal2d.Solve: requires every start cell to be a cell of the grid, since the source indexes its vectors with them unchecked.
- Floating-point rounding is not modelled: values are reals, and the sentinel 1e100 is an exact real.
- The ERT calls are not modelled: `ecl_rft_node_alloc_new`, `ecl_rft_cell_alloc_RFT`, `ecl_rft_node_append_cell` and `ecl_rft_file_update`. Nodes are returned as values, and the file update is a returned flag.
- The "PLT not supported" message on standard error is not modelled.
- The unit conversion of elapsed time is not modelled. The timer supplies its time already in days, together with its POSIX time.
- `EclipseGrid::getGlobalIndex` and `getCellDepth` are function-valued fields of the grid value, since their implementation is not part of this model.
- RftHandler.GetGlobalToActiveIndex: requires the compressed map to have activeSize entries, all inside the Cartesian grid, because the source writes out of bounds otherwise.
- RftHandler.CreateEclRftNode: requires each completion's global index to lie in the Cartesian grid. It also requires each field vector to be empty or to hold an entry per active cell. The source reads out of bounds otherwise.
- The size_t/int casts of the RFT code are not modelled. Indices are unbounded naturals.
- Spu2p.ReservoirState.NumPhases: stated only when there is at least one cell, since the source divides by zero otherwise.
- Spu2p.ReservoirState.constructor: requires at least one phase when there are cells, since the source writes index -1 otherwise.
- The rest of `spu_2p.cpp` is not part of this model:
  - `main` and parameter handling;
  - the `Grid` wrapper;
  - `PressureSolver` (TPFA assembly and the UMFPACK solve);
  - the transport solver and fluid wrapper;
  - `compute_totmob` and `compute_totmob_omega`;
  - the VTK/Matlab output.
- The accessors `pressure()`, `facepressure()`, `faceflux()` and `saturation()` of `ReservoirState` are its fields.
