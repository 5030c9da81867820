# pycellslib grid engine in Dafny

pycellslib is a library for cellular automata. This project models the part that does the work:

- **The N-dimensional cell store** `FiniteNGridTopology`. It keeps `memory_length` boards. Each board holds `attributes_number + 1` layers over the grid `dimensions`, and layer 0 holds the states. A frame of `frontiers_width` cells on every side is the frontier (border). Two indices rotate around the boards: the writing board and the reading board, which lags one step behind. With `memory_length` 0 there is no board at all: the reading board is -1, every board access is an index error, and every flip raises ZeroDivisionError.
- **The two iterators over interior positions.** `NGridIterator` takes the full grid. The older `utils.PositionIterator` takes the interior extent.
- **The simultaneous update step** `Automaton.next_step`. It flips the boards, applies the rule at every interior position to what the neighbourhood mask covers on the reading board, and writes the result into the writing board.
- **The Life-like rule in B/S notation** `BSNotationRule`, over the inclusive Moore neighbourhood.

Files:

- `wrappers.dfy`: `Option`, `Result`, `Outcome` and the error kinds.
  - `OutOfRange` stands for numpy's IndexError.
  - `InvalidParameter` stands for a value that cannot be built or placed in one cell's column: a list of the wrong length, a rule's attributes of the wrong length, an inverted slice. It also stands for the TypeError of a call that cannot be made.
  - `ShapeMismatch` stands for an argument whose shape differs from the region it is assigned to, and for a reshape to a negative extent.
  - `MissingAttribute` stands for AttributeError.
  - `DivisionByZero` stands for ZeroDivisionError.
- `ndindex.dfy`: row-major grids in the order of `np.ndindex`, flattening, boxes, boolean selection, and the `np.ndindex` iterator as a class.
- `neighborhood.dfy`: masks and neighbourhoods, modelled as values.
- `position_iterator.dfy` and `utils.dfy`: the two iterators, as classes whose `Next` runs the source's filter loop.
- `topology.dfy`: the store. Cells live in an `array3<int>` indexed by board, layer and flat row-major position. Getters are functions that read it. Setters are methods that write it in place, with frame conditions.
- `topology_properties.dfy`: a write stays invisible until the next flip, and is read back right after it.
- `automaton.dfy`: the rule as a function value, the automaton class and `NextStep`.
- `rules.dfy`: `BSNotationRule`, `apply_rule` on an `array<int>`, and the rule inside one automaton step.

The concrete `FiniteNGridTopology` does not subclass the abstract `Topology` class (`pycellslib/core/topology.py:10-170`). The model follows the concrete class.

There are four source defects, and each is modelled twice: once as written and once as evidently intended (see Findings). The rest of the model uses the intended definitions. One of them is that `NGridIterator` cannot be constructed at all, so `next_step` as written fails on every call. `NextStep` models the step with a working iterator.

A fifth defect lies behind that one. `next_step` calls `update_cell` (`pycellslib/core/automaton.py:82`), and only the abstract `Topology` declares it (`pycellslib/core/topology.py:97`). On a `FiniteNGridTopology` that call would raise AttributeError. The iterator's TypeError comes first, though, and `NextStepAsWritten` models the step as written with that TypeError. `NextStep` follows the evident intent and writes each update with `SetCellValue`, the concrete class's method for one cell.

## Model

| member | source | states |
|---|---|---|
| NdIndex.NdIndexIterator.Next | pycellslib/core/position_iterator.py:26 | each call yields the next coordinate of the row-major grid, then `None` once the scan is exhausted |
| NdIndex.FlattenIndex | pycellslib/core/topology.py:186-201 | a grid coordinate's flat row-major index is in range, and the grid lists that coordinate at that index |
| NdIndex.BoxIncreasing | pycellslib/core/position_iterator.py:26 | boxes (and so grids) list their coordinates in strictly increasing lexicographic order |
| Neighborhood.Selected | pycellslib/core/topology.py:425-429 | the coordinates a mask selects: as many as its true entries, each inside the mask's shape |
| Neighborhood.SelectedSpec | pycellslib/core/topology.py:425-429 | a coordinate is selected iff it is in the mask's shape and its entry is true; the selection is strictly increasing (row-major, no repeats) |
| PositionIterator.Yields | pycellslib/core/position_iterator.py:26-40 | filtering the scan of `dimensions + frontiers_width` yields exactly the interior box `[fw, dims - fw)`, in row-major order |
| PositionIterator.YieldsExactlyInterior | pycellslib/core/position_iterator.py:36-40 | a coordinate is yielded iff `fw[i] <= c[i] < dims[i] - fw[i]` on every axis |
| PositionIterator.YieldCount | pycellslib/core/position_iterator.py:36-40 | the number yielded is the product of `max(0, dims[i] - 2 fw[i])`; none if any axis has `dims[i] <= 2 fw[i]` |
| PositionIterator.YieldOrder | pycellslib/core/position_iterator.py:26-34 | yielded coordinates are strictly increasing, so pairwise distinct |
| PositionIterator.NoFrontierYieldsGrid | pycellslib/core/position_iterator.py:36-40 | with a zero frontier every grid cell is yielded |
| PositionIterator.NGridIterator.constructor | pycellslib/core/position_iterator.py:21-26 | a fresh iterator has the whole interior box still to yield |
| PositionIterator.NGridIterator.Next | pycellslib/core/position_iterator.py:31-40 | `__next__` returns the first pending interior coordinate and drops it, or `None` (StopIteration) when none is left; the loop terminates |
| Utils.Yields | pycellslib/utils.py:16-41 | filtering the scan of `dimensions + border_widths` yields exactly the box `[bw, dims + bw)` in row-major order |
| Utils.YieldsExactlyInterior | pycellslib/utils.py:37-41 | a coordinate is yielded iff `bw[i] <= c[i] < dims[i] + bw[i]` on every axis |
| Utils.YieldCountAndOrder | pycellslib/utils.py:23-41 | exactly `product(dims)` coordinates, strictly increasing, none when an axis is 0 |
| Utils.PositionIterator.constructor | pycellslib/utils.py:16-23 | a fresh iterator has the whole interior box still to yield |
| Utils.PositionIterator.Next | pycellslib/utils.py:28-43 | as for `NGridIterator`; the trailing `return coordinate` is never reached |
| Topology.Advance | pycellslib/core/topology.py:214-219 | one flip step is `(b + 1) % memory_length` |
| Topology.Lag | pycellslib/core/topology.py:207-209 | the reading board is `(w + m - 1) % m`, and one step forward from it gives `w` |
| Topology.AdvanceKeepsLag | pycellslib/core/topology.py:214-219 | flipping both indices keeps the reading board one behind the writing board |
| Topology.LagDistinct | pycellslib/core/topology.py:207-219 | with at least two boards the reading and writing boards differ |
| Topology.AdvanceByPeriod | pycellslib/core/topology.py:214-219 | `memory_length` flips bring an index back to where it started |
| Topology.BoardOrDefaultDiffers | pycellslib/core/topology.py:224 | `board or default` and the intended resolution differ exactly when board 0 is named and the default is not 0 |
| Topology.ExplicitBoardZeroIgnored | pycellslib/core/topology.py:224 | as written, asking for board 0 while the default is board 1 reads board 1 |
| Topology.ResolveBoard | pycellslib/core/topology.py:224 | an explicit board is used; an absent one selects the default |
| Topology.AttributesFitDiffers | pycellslib/core/topology.py:266-268 | unpacking `*cell_attributes` as written refuses `None` even when cells have no attributes; otherwise the two readings agree |
| Topology.CellValues | pycellslib/core/topology.py:266-268 | the column `[state, *attributes]` starts with the state and continues with the attributes |
| Topology.FrontierMask | pycellslib/core/topology.py:195-201 | one flag per grid cell |
| Topology.FrontierMaskAt | pycellslib/core/topology.py:195-201 | a cell is frontier iff on some axis `q[i] < fw[i]` or `q[i] >= dims[i] - fw[i]` |
| Topology.NotFrontierIsInterior | pycellslib/core/topology.py:195-201 | the negated frontier mask marks exactly the interior box |
| Topology.InteriorSelection | pycellslib/core/topology.py:237-244 | selecting a layer under `~frontier_mask` reads the interior box row by row |
| Topology.SliceBlock | pycellslib/core/topology.py:227-235 | `slice(start, stop)` per axis selects a block inside the grid with numpy's clamping; an exact region's block starts at `min(start, dim)` and has extent `stop - start` |
| Topology.WholeBlockTarget | pycellslib/core/topology.py:227-235 | the whole grid read as a block visits the flat indices in order |
| Topology.WholeBlockCovers | pycellslib/core/topology.py:282-307 | with no subregion every cell lies in the selected block, border included |
| Topology.ExactRegionOutcome | pycellslib/core/topology.py:282-307 | a broadcast write succeeds iff the value fits, the board exists and every axis has a well-ordered slice that ends inside the grid or is empty (an empty slice past the grid clamps to an empty one) |
| Topology.EmptySliceSelectsNothing | pycellslib/core/topology.py:293-307 | a subregion with an empty slice `(s, s)` is an exact region wherever `s` lies, and its block holds no cell |
| Topology.SlicedRegionOutcome | pycellslib/core/topology.py:350-396 | an array write succeeds iff the board exists, there are no more slices than axes and the data has as many entries as the block has cells |
| Topology.BoardUnderMask | pycellslib/core/topology.py:419-431 | applying a mask succeeds iff it has one axis per grid axis and fits at the position, an axis of extent 0 fitting anywhere; a position shorter than the mask, a mask with more axes than the grid, or a mask that does not fit is an index error; states and attribute layers are read at `position + k` for each selected `k` in row-major order, as many as true entries, and there are no attributes iff cells have none |
| Topology.EmptyMaskSelectsNothing | pycellslib/core/topology.py:419-431 | a mask with an axis of extent 0 succeeds and selects nothing wherever it lies on that axis, past the grid included |
| Topology.ReadUnderMask | pycellslib/core/topology.py:430-431 | `layer[box][mask]` lists the layer at `position + k` for each selected `k` |
| Topology.ReadUnderMaskLocal | pycellslib/core/topology.py:430-431 | the masked read depends only on the cells the mask selects |
| Topology.BoardUnderMaskLocal | pycellslib/core/topology.py:419-431 | two boards that agree under the mask give the same mask values |
| Topology.FiniteNGridTopology.constructor | pycellslib/core/topology.py:173-209 | for any `memory_length`, 0 included: every cell of every board is 0, the writing board is 0 and the reading board is `memory_length - 1` |
| Topology.FiniteNGridTopology.Board | pycellslib/core/topology.py:186-192 | a board has `attributes_number + 1` layers of `product(dims)` cells |
| Topology.FiniteNGridTopology.Flip | pycellslib/core/topology.py:214-219 | both indices advance by one modulo `memory_length`; the new reading board is the old writing board; cells are untouched; with no boards the writing board is incremented, then `% 0` raises ZeroDivisionError and the reading board stays |
| Topology.FiniteNGridTopology.Iter | pycellslib/core/topology.py:211-212 | the topology's iterator yields the interior box |
| Topology.FiniteNGridTopology.IterAsWritten | pycellslib/core/position_iterator.py:10-26 | as written, constructing `NGridIterator` raises TypeError on every call |
| Topology.FiniteNGridTopology.IterAsWrittenFails | pycellslib/core/topology.py:211-212 | the written `__iter__` never yields the interior box that `Iter` has pending |
| Topology.FiniteNGridTopology.GetCell | pycellslib/core/topology.py:221-225 | succeeds iff the board exists and the position is in the grid; returns each layer's value at that cell |
| Topology.FiniteNGridTopology.ReadBlock | pycellslib/core/topology.py:227-235 | every layer of a board over a block, in the block's row-major order |
| Topology.FiniteNGridTopology.GetCells | pycellslib/core/topology.py:227-235 | succeeds iff the board exists and there are no more slices than axes; returns the sliced block, and the whole board with no subregion |
| Topology.FiniteNGridTopology.BoardCells | pycellslib/core/topology.py:186-192 | a board read as flat layers agrees with reading its cells |
| Topology.FiniteNGridTopology.GetStates | pycellslib/core/topology.py:237-244 | the whole state layer, or (without frontiers) for each interior coordinate `q + fw` in row-major order the state there; fails on an unknown board, and without frontiers when some `dims[i] < 2 fw[i]` makes the reshape extent negative; `dims[i] == 2 fw[i]` gives an empty interior |
| Topology.FiniteNGridTopology.InteriorAttribute | pycellslib/core/topology.py:252-255 | one attribute layer read over the interior box |
| Topology.FiniteNGridTopology.GetAttributes | pycellslib/core/topology.py:246-255 | the attribute layers, whole or over the interior box, with the same failures as `get_states` |
| Topology.FiniteNGridTopology.ApplyMask | pycellslib/core/topology.py:398-431 | the intended `apply_mask` reads the reading board under the mask and changes nothing; with no boards it is an index error |
| Topology.FiniteNGridTopology.ApplyMaskAsWritten | pycellslib/core/topology.py:419-429 | as written, a position shorter than the mask raises IndexError while building the slices, and every other call raises AttributeError |
| Topology.FiniteNGridTopology.ApplyMaskAsWrittenFails | pycellslib/core/topology.py:425-429 | wherever a mask fits on an existing board, the intended `apply_mask` answers and the written one raises AttributeError |
| Topology.FiniteNGridTopology.WriteColumn | pycellslib/core/topology.py:266-268 | writes a run of layers of one cell of one board and nothing else |
| Topology.FiniteNGridTopology.WriteBlock | pycellslib/core/topology.py:300-307 | writes row-major data into the layers of a block and nothing else |
| Topology.FiniteNGridTopology.SetCellValue | pycellslib/core/topology.py:257-268 | fails on an unknown board or position, then on attributes that do not fit; otherwise only that cell of that board changes, to `[state, *attributes]` |
| Topology.FiniteNGridTopology.SetBorderCellValues | pycellslib/core/topology.py:270-280 | every frontier cell of the board becomes `[state, *attributes]`; interior cells and other boards keep their values |
| Topology.FiniteNGridTopology.FillBlock | pycellslib/core/topology.py:303-307 | the broadcast write: layer `first + j` of every cell of a block gets `vals[j]`; nothing else changes |
| Topology.FiniteNGridTopology.SetCellsValues | pycellslib/core/topology.py:282-307 | every layer of every cell of the box `[lo, hi)` gets the broadcast column; nothing outside it changes; no subregion means the whole board |
| Topology.FiniteNGridTopology.SetCellsStateValues | pycellslib/core/topology.py:309-323 | the state layer of the sliced block gets the state; nothing else changes |
| Topology.FiniteNGridTopology.SetCellsAttributesValues | pycellslib/core/topology.py:325-348 | fails as `set_cells_values` does, `None` fitting only cells without attributes; otherwise the attribute layers of the box get the broadcast attributes; nothing else changes |
| Topology.FiniteNGridTopology.SetCellsStatesFromArray | pycellslib/core/topology.py:350-364 | the state layer of the block gets the array entry of each cell's rank in the block; nothing else changes |
| Topology.FiniteNGridTopology.SetCellsAttributesFromArray | pycellslib/core/topology.py:366-380 | attribute layer `j + 1` of the block gets array `j`; nothing else changes |
| Topology.FiniteNGridTopology.SetCellsFromArray | pycellslib/core/topology.py:382-396 | layer `l` of the block gets array `l`; nothing else changes |
| TopologyProperties.WriteIsolation | pycellslib/core/topology.py:221-225 | without a flip, writing a cell does not change what `get_cell` reads (two or more boards) |
| TopologyProperties.WriteFlipRead | pycellslib/core/topology.py:214-225 | writing a cell and flipping once makes `get_cell` return `[state, *attributes]`; with no boards the read is an index error |
| Automaton.MaskPosition | pycellslib/core/automaton.py:74-76 | the mask position is the element-wise sum of the position and the offset |
| Automaton.CellUpdate | pycellslib/core/automaton.py:74-82 | a successful update writes a column of `attributes_number + 1` values; a failing mask read or rule fails the update |
| Automaton.CellUpdateLocal | pycellslib/core/automaton.py:74-82 | the update of a cell depends only on the read-board cells its mask covers |
| Automaton.Automaton.constructor | pycellslib/core/automaton.py:14-28 | the mask and offset are fetched from the rule's neighbourhood once and kept |
| Automaton.Automaton.NextStep | pycellslib/core/automaton.py:64-82 | with no boards the flip fails and nothing else happens; otherwise one flip first; no board but the new writing board changes, and none of its frontier cells; with two or more boards, success iff every interior update succeeds, and then every interior cell holds the rule applied to the frozen reading board, whatever the visiting order |
| Automaton.Automaton.NextStepAsWritten | pycellslib/core/automaton.py:64-73 | as written, the flip happens and iterating the topology then raises, so every call fails and no cell changes |
| Automaton.Automaton.Sweep | pycellslib/core/automaton.py:73-82 | the loop visits the positions the iterator has left, in order, until one fails; cells outside those positions and every other board keep their values; while the reading and writing boards differ, it succeeds iff every position's update from the reading board as it was at the start succeeds, and then each position holds that update |
| Automaton.Automaton.Visit | pycellslib/core/automaton.py:74-82 | for a position in the grid, one iteration succeeds iff the update of `p` succeeds (failing with the same error), writes that update at `p` on the writing board, and changes no other cell and no other board |
| Automaton.Automaton.InteriorInGrid | pycellslib/core/automaton.py:73 | interior positions lie in the grid |
| TwoDimensionalRules.MooreNeighborhood | pycellslib/twodimensional/rules.py:26 | the inclusive Moore mask has shape `(2r + 1, 2r + 1)` and offset `(-r, -r)` |
| TwoDimensionalRules.MooreCentreIsCell | tests/test_twodimensional/test_neighborhoods.py:30-57 | the mask selects every coordinate of its square, `(2r + 1)^2` of them, and the middle one is `(r, r)`, the cell itself after the offset |
| TwoDimensionalRules.NewBSNotationRule | pycellslib/twodimensional/rules.py:22-26 | stores `B`, `S` and the radius, with the inclusive Moore neighbourhood |
| TwoDimensionalRules.SumZeroAt | pycellslib/twodimensional/rules.py:51-53 | zeroing one entry removes exactly that entry from the sum |
| TwoDimensionalRules.NeighbourCount | pycellslib/twodimensional/rules.py:49-53 | the neighbour count is the sum of all entries but the centre `size // 2` |
| TwoDimensionalRules.BSNext | pycellslib/twodimensional/rules.py:55-68 | the new state is 0 or 1; a live centre gives 1 iff the count is in `S`; a dead centre gives 1 iff the count is in `B` or `B` is empty; any other centre gives 0 |
| TwoDimensionalRules.ApplyRule | pycellslib/twodimensional/rules.py:38-68 | on an empty array, reading the centre is an index error; otherwise the only side effect is that the centre entry becomes 0, the state returned is `BSNext` of the original array, and the attributes are `None` |
| TwoDimensionalRules.AsRule | pycellslib/twodimensional/rules.py:28-68 | the rule an automaton runs has the rule's neighbourhood; on states it returns `BSNext` and no attributes, and no states at all is an index error |
| TwoDimensionalRules.MooreCentre | pycellslib/twodimensional/rules.py:49 | the middle entry of the Moore selection is `(r, r)` |
| TwoDimensionalRules.MooreStates | pycellslib/twodimensional/rules.py:49 | on a 2-D grid the middle entry of the Moore read at `p - r` is the state of `p` |
| TwoDimensionalRules.BSCellUpdate | pycellslib/core/automaton.py:74-82 | in one step on a 2-D grid with no attributes, the update at `p` succeeds iff the `(2r + 1)`-square around `p` fits, and is then `[BSNext]` of the square's states |

## Left out

- Cell values are `int`. The source stores floats, but the engine only copies them.
- numpy views are modelled as copies. For example, `get_cell` returns a view that aliases the board.
- Negative indices and numpy's wrap-around for them are not modelled. Positions are in the grid or refused.
- Broadcasting is modelled only as the source uses it. The following are not modelled: a length-1 value broadcast over every layer, an axis of extent 1 broadcast to 0, and the `-1` in `reshape`.
- Out-of-range slices are clamped as numpy clamps them. Slices beyond the last axis, which numpy refuses, are refused as `OutOfRange`.
- A position with fewer coordinates than axes (a partial index) is not modelled.
- Topology.ExactRegionOutcome: a subregion with fewer slices than the grid has axes is refused as `ShapeMismatch`. numpy aligns the value built from the slices with the block from the right, and it succeeds whenever that value then broadcasts onto the block. This alignment pairs the value's layer axis with an axis of the grid. For example, with no attributes, `dimensions=[5, 4]` and `subregion=[(2, 3)]` set all of row 2.
- Topology.FiniteNGridTopology.SetCellsValues: through `ExactRegionOutcome`, it refuses a subregion with fewer slices than axes and writes nothing, even where numpy would broadcast the value onto the block.
- Topology.FiniteNGridTopology.SetCellsAttributesValues: likewise, a subregion with fewer slices than axes is refused and nothing is written.
- The array setters take their data flat, in row-major order, and check only its length. numpy takes an array shaped like the block, and it also broadcasts smaller shapes.
- Topology.FiniteNGridTopology.constructor: `dimensions` and `frontiers_width` are assumed to have the same length. Otherwise the source raises ValueError at topology.py:182 when the two do not broadcast, or IndexError at topology.py:196 when `frontiers_width` is shorter. A longer `frontiers_width` that broadcasts, such as `dimensions=[5]` with `frontiers_width=[1, 1]`, is accepted there and changes only `sub_dimensions`.
- Topology.FiniteNGridTopology.SetCellsAttributesValues: `None` with attributes is refused as `InvalidParameter` before the board and the slices are looked at. numpy fails later, when it stores `None` as a float, and not at all when the region is empty.
- Automaton.Automaton.NextStep: when an update fails part-way, the writes already made stay. The contract says only that one failed, and which cells are not touched.
- Automaton.Automaton.NextStep: with a single board, reading and writing share it. Only the frame and the flip are stated then.
- `apply_rule` in the automaton has no side effect on any board. The array it zeroes is the fresh array that boolean indexing returns.
- Rule.apply is a function value, since the `Rule` and `Neighborhood` interfaces carry no behaviour.
- `load_configuration`, `save_configuration`, the density and average getters, cell information, the visualizers and the errors' messages are left out. They are empty stubs, I/O, floating point or UI.
- `MooreNeighborhood`'s own source is not part of this model. Its mask and offset follow the library's tests.
- Topology.BoardUnderMask: a mask with fewer axes than the grid is refused as `InvalidParameter`. numpy would succeed when the box matches the mask on the mask's axes, and it would select whole sub-arrays along the other axes. The Moore masks of the two-dimensional rules have one axis per axis of a two-dimensional grid.
- Topology.BoardUnderMask: a position with more coordinates than the mask has axes is refused as `OutOfRange`. The source builds the slices from its first coordinates only. The automaton's positions have one coordinate per grid axis, so a longer one meets a mask with fewer axes than the grid, the case above.
- TwoDimensionalRules.NewBSNotationRule: the default `radius=1` is not modelled. Callers always pass the radius.
- TwoDimensionalRules.GetNeighborhood: it is a field read with no contract of its own. `NewBSNotationRule` states which neighbourhood it returns.

## Findings

| source | as written | input that shows it | evidently intended | confidence | as-written member | corrected member |
|---|---|---|---|---|---|---|
| pycellslib/core/topology.py:224 | `board = board or self.reading_board` replaces an explicit board 0 by the default (likewise at 230, 240, 249, 264, 276, 289, 315, 331, 356, 372, 388) | `get_cell(p, board=0)` with reading board 1 | an explicit board 0 is used | not executed | Topology.BoardOrDefaultAsWritten | Topology.ResolveBoard |
| pycellslib/core/topology.py:266-268 | `[cell_state, *cell_attributes]` cannot unpack `None` (likewise at 279 and 300) | `set_cell_value(p, 1, None)` on cells without attributes, as `next_step` does after a rule returns `None` attributes | `None` means no attributes | not executed | Topology.AttributesFitAsWritten | Topology.AttributesFit |
| pycellslib/core/topology.py:425-429 | `apply_mask` reads `self.states`, `self.read_buffer` and `self.attributes`, which are never defined | any call whose position has a coordinate per mask axis (a shorter one raises IndexError at 421 first) | read layer 0 (and layers 1..) of the reading board | not executed | Topology.FiniteNGridTopology.ApplyMaskAsWritten | Topology.FiniteNGridTopology.ApplyMask |
| pycellslib/core/position_iterator.py:10-20 | `class PositionIterator(ABCMeta)` makes `NGridIterator` a metaclass, so `NGridIterator(dimensions, frontiers_width)` reaches `ABCMeta.__new__` without a namespace and raises TypeError | `for position in self.topology` in `next_step`, on any topology with at least one board | `PositionIterator` is an abstract base class (`metaclass=ABCMeta`), and the iterator yields the interior positions | not executed | Topology.FiniteNGridTopology.IterAsWritten | Topology.FiniteNGridTopology.Iter |
