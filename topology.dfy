/**
 * The finite n-dimensional grid topology: a ring of `memoryLength` boards,
 * each holding one state layer and `attributesNumber` attribute layers over a
 * grid of shape `dimensions`, stored row-major.  A frame of width
 * `frontiersWidth` around the grid is the frontier; the cells inside it are
 * the ones an automaton updates.
 */
module Topology {
  import opened Wrappers
  import opened Errors
  import opened NdIndex
  import opened Neighborhood
  import PositionIterator

  /** A board as a value: `board[layer][flat]`, layer 0 holding the states. */
  type Board = seq<seq<int>>

  /** A subregion argument: one half-open `(start, stop)` slice per axis. */
  type Subregion = seq<(nat, nat)>

  // ---------------------------------------------------------------------
  // Ring of boards

  /** Advancing a board index one step around a ring of `m` boards: `(b + 1) % m`. */
  function Advance(b: nat, m: nat): (r: nat)
    requires b < m
    ensures r < m
    ensures r == (b + 1) % m
  {
    if b + 1 == m then
      ModOfShifted(0, 1, m);
      0
    else
      ModOfShifted(b + 1, 0, m);
      b + 1
  }

  /** The board one step behind `w`: `(w + m - 1) % m`, where a new topology's reading board `m - 1` starts. */
  function Lag(w: nat, m: nat): (r: nat)
    requires w < m
    ensures r < m
    ensures r == (w + m - 1) % m
    ensures Advance(r, m) == w
  {
    ModOfShifted(if w == 0 then m - 1 else w - 1, if w == 0 then 0 else 1, m);
    if w == 0 then m - 1 else w - 1
  }

  /** `(x + j * m) % m == x` for `x` already in range, with `j` zero or one. */
  lemma ModOfShifted(x: int, j: int, m: nat)
    requires 0 <= x < m && 0 <= j <= 1
    ensures (x + j * m) % m == x
  {
    if j == 1 {
      assert x + j * m == x + m;
    }
  }

  /** `n` advances from `b`. */
  function AdvanceBy(b: nat, m: nat, n: nat): (r: nat)
    requires b < m
    ensures r < m
  {
    if n == 0 then b else Advance(AdvanceBy(b, m, n - 1), m)
  }

  /** Advancing keeps the reading board exactly one step behind the writing board. */
  lemma AdvanceKeepsLag(w: nat, m: nat)
    requires w < m
    ensures Lag(Advance(w, m), m) == Advance(Lag(w, m), m)
  {
  }

  /** With two or more boards the reading board is never the writing board. */
  lemma LagDistinct(w: nat, m: nat)
    requires w < m && m >= 2
    ensures Lag(w, m) != w
  {
  }

  lemma {:induction false} AdvanceByCompose(b: nat, m: nat, n1: nat, n2: nat)
    requires b < m
    ensures AdvanceBy(b, m, n1 + n2) == AdvanceBy(AdvanceBy(b, m, n1), m, n2)
    decreases n2
  {
    if n2 > 0 {
      AdvanceByCompose(b, m, n1, n2 - 1);
    }
  }

  lemma {:induction false} AdvanceByCounts(b: nat, m: nat, n: nat)
    requires b + n < m
    ensures AdvanceBy(b, m, n) == b + n
  {
    if n > 0 {
      AdvanceByCounts(b, m, n - 1);
    }
  }

  /** `m` advances bring every board index back to itself: the ring has period `m`. */
  lemma AdvanceByPeriod(b: nat, m: nat)
    requires b < m
    ensures AdvanceBy(b, m, m) == b
  {
    var k := m - b - 1;
    AdvanceByCounts(b, m, k);
    AdvanceByCompose(b, m, k, 1);
    assert AdvanceBy(m - 1, m, 1) == Advance(m - 1, m) == 0;
    AdvanceByCompose(b, m, k + 1, b);
    AdvanceByCounts(0, m, b);
    assert k + 1 + b == m;
  }

  // ---------------------------------------------------------------------
  // The optional board argument

  /** `board = board or default`: Python's `or` also replaces an explicit board 0. */
  function BoardOrDefaultAsWritten(board: Option<nat>, default: int): int
  {
    match board
    case None => default
    case Some(b) => if b == 0 then default else b
  }

  /** The evidently intended reading: an explicit board is used, an absent one selects the default. */
  function ResolveBoard(board: Option<nat>, default: int): (b: int)
    ensures board.Some? ==> b == board.value
    ensures board.None? ==> b == default
    ensures default >= 0 ==> b >= 0
  {
    match board
    case None => default
    case Some(b) => b
  }

  /** The two readings differ exactly when board 0 is asked for explicitly and the default is another board. */
  lemma BoardOrDefaultDiffers(board: Option<nat>, default: int)
    ensures BoardOrDefaultAsWritten(board, default) != ResolveBoard(board, default)
        <==> board == Some(0) && default != 0
  {
  }

  /** Asking for board 0 on a topology whose reading board is 1 reads board 1. */
  lemma ExplicitBoardZeroIgnored()
    ensures BoardOrDefaultAsWritten(Some(0), 1) == 1
    ensures ResolveBoard(Some(0), 1) == 0
  {
  }

  // ---------------------------------------------------------------------
  // Cell values

  /** As written, `[cell_state, *cell_attributes]` cannot unpack `None`: only a list of exactly `a` values fits. */
  predicate AttributesFitAsWritten(attributes: Option<seq<int>>, a: nat)
  {
    attributes.Some? && |attributes.value| == a
  }

  /**
   * The evidently intended reading: a cell with no attributes is written
   * with `None` (the attributes every rule without attributes returns) or
   * with an empty list; otherwise exactly `a` values fit.
   */
  predicate AttributesFit(attributes: Option<seq<int>>, a: nat)
  {
    match attributes
    case None => a == 0
    case Some(v) => |v| == a
  }

  /** The two readings differ on `None` alone, which as written is refused even when cells have no attributes. */
  lemma AttributesFitDiffers(attributes: Option<seq<int>>, a: nat)
    ensures AttributesFitAsWritten(attributes, a) != AttributesFit(attributes, a)
        <==> attributes.None? && a == 0
  {
  }

  /** The column of values `[cell_state, *cell_attributes]`, `None` contributing no attributes. */
  function CellValues(state: int, attributes: Option<seq<int>>): (v: seq<int>)
    ensures |v| >= 1 && v[0] == state
    ensures attributes.Some? ==> v[1..] == attributes.value
    ensures attributes.None? ==> |v| == 1
  {
    match attributes
    case None => [state]
    case Some(a) => [state] + a
  }

  // ---------------------------------------------------------------------
  // Frontier

  /** Whether coordinate `q` lies in the interior box `[fw, dims - fw)`. */
  predicate Interior(q: seq<int>, dims: seq<nat>, fw: seq<nat>)
    requires |dims| == |fw|
  {
    InBox(q, fw, Sub(dims, fw))
  }

  /** The frontier mask, flat and row-major: true outside the interior box. */
  function FrontierMask(dims: seq<nat>, fw: seq<nat>): (m: seq<bool>)
    requires |dims| == |fw|
    ensures |m| == Product(dims)
  {
    GridLength(dims);
    var g := Grid(dims);
    seq(|g|, f requires 0 <= f < |g| => !Interior(g[f], dims, fw))
  }

  /** A cell is frontier iff on some axis it lies within `fw` of either edge. */
  lemma FrontierMaskAt(dims: seq<nat>, fw: seq<nat>, q: seq<int>)
    requires |dims| == |fw| && InGrid(q, dims)
    ensures 0 <= Flatten(dims, q) < Product(dims)
    ensures FrontierMask(dims, fw)[Flatten(dims, q)]
        <==> exists i :: 0 <= i < |dims| && (q[i] < fw[i] || q[i] >= dims[i] - fw[i])
  {
    FlattenIndex(dims, q);
    GridLength(dims);
  }

  /** The frontier mask, negated, marks exactly the interior coordinates of the row-major grid. */
  lemma NotFrontierIsInterior(dims: seq<nat>, fw: seq<nat>)
    requires |dims| == |fw|
    ensures forall k :: 0 <= k < |Grid(dims)| ==>
      (NotMask(FrontierMask(dims, fw))[k] <==> InBox(Grid(dims)[k], fw, Sub(dims, fw)))
  {
  }

  /** Selecting the cells outside the frontier mask, in flat order, reads the interior box row by row. */
  lemma InteriorSelection(dims: seq<nat>, fw: seq<nat>, layer: seq<int>)
    requires |dims| == |fw| && |layer| == Product(dims)
    ensures forall k :: 0 <= k < |Box(fw, Sub(dims, fw))| ==> InGrid(Box(fw, Sub(dims, fw))[k], dims)
    ensures Compress(layer, NotMask(FrontierMask(dims, fw)))
         == Gather(layer, dims, Box(fw, Sub(dims, fw)))
  {
    var hi := Sub(dims, fw);
    var bits := NotMask(FrontierMask(dims, fw));
    forall k | 0 <= k < |Grid(dims)|
      ensures InGrid(Grid(dims)[k], dims)
    {
      GridElement(dims, k);
    }
    CompressGather(layer, dims, Grid(dims), bits);
    GatherGrid(layer, dims);
    NotFrontierIsInterior(dims, fw);
    CompressInBox(Grid(dims), bits, fw, hi);
    KeepGrid(dims, fw, hi);
  }

  /** Element-wise negation of a mask (`~mask`). */
  function NotMask(bits: seq<bool>): (r: seq<bool>)
    ensures |r| == |bits|
    ensures forall k :: 0 <= k < |bits| ==> r[k] == !bits[k]
  {
    seq(|bits|, k requires 0 <= k < |bits| => !bits[k])
  }

  // ---------------------------------------------------------------------
  // Subregions

  /** A block of the grid: the coordinates `lo + k` for `k` in the grid of shape `sizes`. */
  datatype Block = Block(lo: seq<int>, sizes: seq<nat>)

  /**
   * The subregion has one well-ordered slice per axis, and numpy's clamped
   * slice keeps each slice's extent: the slice ends inside the grid, or it
   * is empty (an empty slice past the grid clamps to an empty one).
   */
  predicate ExactRegion(subregion: Option<Subregion>, dims: seq<nat>)
  {
    match subregion
    case None => true
    case Some(rs) =>
      |rs| == |dims| &&
      forall i :: 0 <= i < |rs| ==> rs[i].0 <= rs[i].1 && (rs[i].1 <= dims[i] || rs[i].0 == rs[i].1)
  }

  /**
   * The block numpy selects with `slice(start, stop)` on the first axes
   * (and the whole extent on the rest): start and stop are clamped to the
   * axis and an inverted slice is empty.  (Slices beyond the last axis,
   * which numpy refuses, are ignored here.)
   */
  function SliceBlock(subregion: Option<Subregion>, dims: seq<nat>): (blk: Block)
    ensures BlockFits(dims, blk.lo, blk.sizes)
    ensures forall i :: 0 <= i < |dims| ==>
      if subregion.Some? && i < |subregion.value| then
        blk.lo[i] == Min(subregion.value[i].0, dims[i]) &&
        blk.lo[i] + blk.sizes[i] == Max(blk.lo[i], Min(subregion.value[i].1, dims[i]))
      else
        blk.lo[i] == 0 && blk.sizes[i] == dims[i]
    ensures ExactRegion(subregion, dims) && subregion.Some? ==>
      forall i :: 0 <= i < |dims| ==>
        blk.lo[i] == Min(subregion.value[i].0, dims[i]) && blk.sizes[i] == subregion.value[i].1 - subregion.value[i].0
  {
    var n := if subregion.None? then 0 else Min(|subregion.value|, |dims|);
    var lo := seq(|dims|, i requires 0 <= i < |dims| =>
      if i < n then Min(subregion.value[i].0, dims[i]) else 0);
    var sizes := seq(|dims|, i requires 0 <= i < |dims| =>
      if i < n then Max(0, Min(subregion.value[i].1, dims[i]) - lo[i]) as nat else dims[i]);
    Block(lo, sizes)
  }

  /** Reading the whole grid as a block visits every flat index in order. */
  lemma WholeBlockTarget(dims: seq<nat>)
    ensures BlockFits(dims, Zeros(|dims|), dims)
    ensures forall k :: 0 <= k < Product(dims) ==> BlockTarget(dims, Zeros(|dims|), dims, k) == k
  {
    forall k | 0 <= k < Product(dims) ensures BlockTarget(dims, Zeros(|dims|), dims, k) == k {
      var c := Grid(dims)[k];
      assert Add(Zeros(|dims|), c) == c;
      FlattenOfGrid(dims, k);
    }
  }

  /** With no subregion the block is the whole grid. */
  lemma WholeBlock(dims: seq<nat>)
    ensures SliceBlock(None, dims).lo == Zeros(|dims|)
    ensures SliceBlock(None, dims).sizes == dims
  {
  }

  /**
   * How an assignment of a broadcast value to an exact subregion fails, in
   * the order Python meets the failures: the value is built first (a value
   * of the wrong length, or an inverted slice giving a negative extent, is
   * refused), then the board is indexed, then the slices, and last the
   * built value must have the region's shape.
   */
  function ExactRegionOutcome(valueFits: bool, subregion: Option<Subregion>, b: int, m: nat, dims: seq<nat>): (r: Outcome<Error>)
    ensures r.Pass? <==> valueFits && 0 <= b < m && ExactRegion(subregion, dims)
  {
    if !valueFits then Fail(InvalidParameter)
    else if subregion.Some? && exists i :: 0 <= i < |subregion.value| && subregion.value[i].0 > subregion.value[i].1 then
      Fail(InvalidParameter)
    else if !(0 <= b < m) then Fail(OutOfRange)
    else if subregion.Some? && |subregion.value| > |dims| then Fail(OutOfRange)
    else if !ExactRegion(subregion, dims) then Fail(ShapeMismatch)
    else Pass
  }

  /**
   * How an assignment to a sliced subregion fails: an unknown board or more
   * slices than axes is an index error; `shapeFits` says whether the
   * assigned array has the sliced block's shape.
   */
  function SlicedRegionOutcome(shapeFits: bool, subregion: Option<Subregion>, b: int, m: nat, dims: seq<nat>): (r: Outcome<Error>)
    ensures r.Pass? <==> 0 <= b < m && (subregion.None? || |subregion.value| <= |dims|) && shapeFits
    ensures r.Fail? && r.error == ShapeMismatch ==> 0 <= b < m && (subregion.None? || |subregion.value| <= |dims|)
  {
    if !(0 <= b < m) || (subregion.Some? && |subregion.value| > |dims|) then Fail(OutOfRange)
    else if !shapeFits then Fail(ShapeMismatch)
    else Pass
  }

  /** Every cell of the grid lies in the block an absent subregion selects. */
  lemma WholeBlockCovers(dims: seq<nat>)
    ensures forall g :: 0 <= g < Product(dims) ==>
      InBlock(Grid(dims)[g], SliceBlock(None, dims).lo, SliceBlock(None, dims).sizes)
  {
    WholeBlock(dims);
    GridElements(dims);
    assert Add(Zeros(|dims|), dims) == dims;
  }

  /**
   * A subregion with an empty slice `(s, s)` on some axis is an exact
   * region wherever `s` lies, as long as the others are, and its block
   * holds no cell: writing it is a no-op that succeeds.
   */
  lemma EmptySliceSelectsNothing(rs: Subregion, dims: seq<nat>, i: nat)
    requires |rs| == |dims| && i < |rs| && rs[i].0 == rs[i].1
    requires forall k :: 0 <= k < |rs| && k != i ==> rs[k].0 <= rs[k].1 <= dims[k]
    ensures ExactRegion(Some(rs), dims)
    ensures forall c :: !InBlock(c, SliceBlock(Some(rs), dims).lo, SliceBlock(Some(rs), dims).sizes)
  {
    var blk := SliceBlock(Some(rs), dims);
    assert blk.sizes[i] == 0;
  }

  /** `count` flat layers of `n` values each: the shape an array assigned to a block of `n` cells must have. */
  predicate FlatLayers(data: seq<seq<int>>, count: nat, n: nat)
  {
    |data| == count && forall j :: 0 <= j < |data| ==> |data[j]| == n
  }

  // ---------------------------------------------------------------------
  // Reading under a mask

  /** What applying a mask yields: the selected states and, per attribute, the selected attribute values. */
  datatype MaskValues = MaskValues(states: seq<int>, attributes: Option<seq<seq<int>>>)

  /** `board` has one state layer and `a` attribute layers, each a flat array over `dims`. */
  predicate BoardShaped(board: Board, dims: seq<nat>, a: nat)
  {
    |board| == a + 1 && forall l :: 0 <= l < |board| ==> |board[l]| == Product(dims)
  }

  /**
   * The box `slice(position[i], position[i] + shape[i])` numpy cuts out has
   * the mask's shape: on every axis the box lies inside the grid, or the
   * axis has extent 0, whose slice is empty wherever it starts.
   */
  predicate MaskFits(dims: seq<nat>, position: seq<int>, shape: seq<nat>)
  {
    |position| == |shape| == |dims| &&
    forall i :: 0 <= i < |dims| ==> shape[i] == 0 || (0 <= position[i] && position[i] + shape[i] <= dims[i])
  }

  /** A mask that fits without lying inside the grid has an empty axis, hence no entries. */
  lemma {:induction false} MaskFitsEmpty(dims: seq<nat>, position: seq<int>, mask: Mask)
    requires mask.Valid() && MaskFits(dims, position, mask.shape) && !BlockFits(dims, position, mask.shape)
    ensures mask.bits == [] && Selected(mask) == []
  {
    var i :| 0 <= i < |dims| && !(0 <= position[i] && position[i] + mask.shape[i] <= dims[i]);
    ProductZero(mask.shape, i);
  }

  /**
   * A board value read under `mask` laid at `position`.  Building the slices
   * reads one coordinate per mask axis, so a shorter position is an index
   * error; so is a mask with more axes than the grid.  A mask with fewer
   * axes than the grid is refused as an invalid parameter.  The mask must
   * then fit (`MaskFits`), or the clamped box and the mask disagree in
   * shape, which is an index error too; a fitting mask with an empty axis
   * selects nothing.  The states and each attribute
   * layer are read at `position + k` for every selected mask coordinate
   * `k`, in the mask's row-major order; there are no attributes exactly
   * when cells have none.
   */
  function BoardUnderMask(board: Board, dims: seq<nat>, a: nat, position: seq<int>, mask: Mask): (r: Result<MaskValues, Error>)
    requires BoardShaped(board, dims, a) && mask.Valid()
    ensures r.Ok? <==> MaskFits(dims, position, mask.shape)
    ensures r.Err? ==> r.error == (if |position| >= |mask.shape| && |mask.shape| < |dims| then InvalidParameter else OutOfRange)
    ensures r.Ok? ==>
      var sel := Selected(mask);
      |r.value.states| == |sel| == CountTrue(mask.bits) &&
      (forall i :: 0 <= i < |sel| ==> r.value.states[i] == LayerAt(board[0], dims, Add(position, sel[i]))) &&
      (r.value.attributes.None? <==> a == 0) &&
      (r.value.attributes.Some? ==>
        |r.value.attributes.value| == a &&
        forall j :: 0 <= j < a ==>
          |r.value.attributes.value[j]| == |sel| &&
          forall i :: 0 <= i < |sel| ==>
            r.value.attributes.value[j][i] == LayerAt(board[j + 1], dims, Add(position, sel[i])))
  {
    if |position| < |mask.shape| || |mask.shape| > |dims| then Err(OutOfRange)
    else if |mask.shape| < |dims| then Err(InvalidParameter)
    else if !MaskFits(dims, position, mask.shape) then Err(OutOfRange)
    else if !BlockFits(dims, position, mask.shape) then
      MaskFitsEmpty(dims, position, mask);
      Ok(MaskValues([], if a == 0 then None else Some(seq(a, j => []))))
    else
      var states := ReadUnderMask(board[0], dims, position, mask);
      var attributes := if a == 0 then None
        else Some(seq(a, j requires 0 <= j < a => ReadUnderMask(board[j + 1], dims, position, mask)));
      Ok(MaskValues(states, attributes))
  }

  /**
   * numpy's `layer[box][mask]`: the box of the mask's shape at `position` is
   * cut out of the layer and its entries under true mask bits are taken in
   * row-major order.  The result lists the layer at `position + k` for every
   * selected mask coordinate `k`, in order.
   */
  function ReadUnderMask(layer: seq<int>, dims: seq<nat>, position: seq<int>, mask: Mask): (r: seq<int>)
    requires |layer| == Product(dims) && mask.Valid() && BlockFits(dims, position, mask.shape)
    ensures |r| == CountTrue(mask.bits)
    ensures forall i :: 0 <= i < |r| ==> r[i] == LayerAt(layer, dims, Add(position, Selected(mask)[i]))
  {
    var box := Shift(position, Grid(mask.shape));
    BlockElements(dims, position, mask.shape);
    CompressGather(layer, dims, box, mask.bits);
    CompressShift(position, Grid(mask.shape), mask.bits);
    CompressLength(Gather(layer, dims, box), mask.bits);
    Compress(Gather(layer, dims, box), mask.bits)
  }

  /** Reading under a mask sees nothing but the cells the mask selects. */
  lemma ReadUnderMaskLocal(l1: seq<int>, l2: seq<int>, dims: seq<nat>, position: seq<int>, mask: Mask)
    requires |l1| == |l2| == Product(dims) && mask.Valid() && BlockFits(dims, position, mask.shape)
    requires forall i :: 0 <= i < |Selected(mask)| ==>
      LayerAt(l1, dims, Add(position, Selected(mask)[i])) == LayerAt(l2, dims, Add(position, Selected(mask)[i]))
    ensures ReadUnderMask(l1, dims, position, mask) == ReadUnderMask(l2, dims, position, mask)
  {
    var s1 := ReadUnderMask(l1, dims, position, mask);
    var s2 := ReadUnderMask(l2, dims, position, mask);
    assert forall i :: 0 <= i < |s1| ==> s1[i] == s2[i];
  }

  /**
   * A mask with an empty axis selects nothing wherever it lies, also past
   * the edge of the grid, as long as the other axes fit.
   */
  lemma EmptyMaskSelectsNothing(board: Board, dims: seq<nat>, a: nat, position: seq<int>, mask: Mask, i: nat)
    requires BoardShaped(board, dims, a) && mask.Valid()
    requires |position| == |mask.shape| == |dims| && i < |dims| && mask.shape[i] == 0
    requires forall k :: 0 <= k < |dims| && k != i ==> 0 <= position[k] && position[k] + mask.shape[k] <= dims[k]
    ensures BoardUnderMask(board, dims, a, position, mask).Ok?
    ensures BoardUnderMask(board, dims, a, position, mask).value.states == []
  {
    ProductZero(mask.shape, i);
  }

  /** Two boards that agree on every layer under the mask give the same mask values. */
  lemma BoardUnderMaskLocal(r1: Board, r2: Board, dims: seq<nat>, a: nat, position: seq<int>, mask: Mask)
    requires BoardShaped(r1, dims, a) && BoardShaped(r2, dims, a) && mask.Valid()
    requires |position| == |mask.shape| ==>
      forall l, i :: 0 <= l <= a && 0 <= i < |Selected(mask)| ==>
        LayerAt(r1[l], dims, Add(position, Selected(mask)[i])) == LayerAt(r2[l], dims, Add(position, Selected(mask)[i]))
    ensures BoardUnderMask(r1, dims, a, position, mask) == BoardUnderMask(r2, dims, a, position, mask)
  {
    if |mask.shape| == |dims| && BlockFits(dims, position, mask.shape) {
      forall l | 0 <= l <= a
        ensures ReadUnderMask(r1[l], dims, position, mask) == ReadUnderMask(r2[l], dims, position, mask)
      {
        ReadUnderMaskLocal(r1[l], r2[l], dims, position, mask);
      }
      var v1 := BoardUnderMask(r1, dims, a, position, mask).value;
      var v2 := BoardUnderMask(r2, dims, a, position, mask).value;
      assert v1.states == v2.states;
      if a > 0 {
        assert forall j :: 0 <= j < a ==> v1.attributes.value[j] == ReadUnderMask(r1[j + 1], dims, position, mask);
        assert forall j :: 0 <= j < a ==> v2.attributes.value[j] == ReadUnderMask(r2[j + 1], dims, position, mask);
        assert v1.attributes.value == v2.attributes.value;
      }
    }
  }

  // ---------------------------------------------------------------------
  // The topology

  class FiniteNGridTopology {
    const dimensions: seq<nat>
    const frontiersWidth: seq<nat>
    /** `dimensions - 2 * frontiersWidth`, the shape the interior is reshaped to. */
    const subDimensions: seq<int>
    const attributesNumber: nat
    const memoryLength: nat
    const frontierMask: seq<bool>
    /** `cells[board, layer, flat]`: layer 0 holds states, layers 1.. the attributes. */
    const cells: array3<int>
    var writingBoard: nat
    /** One behind the writing board; -1 when there are no boards at all. */
    var readingBoard: int

    ghost predicate Valid()
      reads this
    {
      |dimensions| == |frontiersWidth| &&
      |subDimensions| == |dimensions| &&
      (forall i :: 0 <= i < |dimensions| ==> subDimensions[i] == dimensions[i] as int - 2 * frontiersWidth[i]) &&
      frontierMask == FrontierMask(dimensions, frontiersWidth) &&
      cells.Length0 == memoryLength &&
      cells.Length1 == attributesNumber + 1 &&
      cells.Length2 == Product(dimensions) &&
      if memoryLength == 0 then readingBoard == -1
      else writingBoard < memoryLength && readingBoard == Lag(writingBoard, memoryLength)
    }

    /**
     * A fresh topology: every board zero, writing on board 0 and reading the
     * last board, which is -1 when `memoryLength` is 0 and no board exists.
     */
    constructor(attributesNumber: nat, dimensions: seq<nat>, frontiersWidth: seq<nat>, memoryLength: nat)
      requires |dimensions| == |frontiersWidth|
      ensures Valid() && fresh(cells)
      ensures this.dimensions == dimensions && this.frontiersWidth == frontiersWidth
      ensures this.attributesNumber == attributesNumber && this.memoryLength == memoryLength
      ensures writingBoard == 0 && readingBoard == memoryLength - 1
      ensures forall b, l, f :: 0 <= b < cells.Length0 && 0 <= l < cells.Length1 && 0 <= f < cells.Length2 ==>
        cells[b, l, f] == 0
    {
      this.dimensions := dimensions;
      this.frontiersWidth := frontiersWidth;
      this.subDimensions := seq(|dimensions|, i requires 0 <= i < |dimensions| =>
        dimensions[i] as int - 2 * frontiersWidth[i]);
      this.attributesNumber := attributesNumber;
      this.memoryLength := memoryLength;
      this.frontierMask := FrontierMask(dimensions, frontiersWidth);
      this.cells := new int[memoryLength, attributesNumber + 1, Product(dimensions)]((b, l, f) => 0);
      this.writingBoard := 0;
      this.readingBoard := memoryLength - 1;
    }

    /** The value of layer `l` of board `b` at coordinate `q`; 0 for anything outside the array. */
    function CellAt(b: int, l: int, q: seq<int>): int
      reads cells
    {
      if 0 <= b < cells.Length0 && 0 <= l < cells.Length1 && InGrid(q, dimensions) && cells.Length2 == Product(dimensions) then
        FlattenIndex(dimensions, q);
        cells[b, l, Flatten(dimensions, q)]
      else 0
    }

    /** The values `[state, *attributes]` of the cell at `q` on board `b`. */
    function Column(b: int, q: seq<int>): (c: seq<int>)
      reads cells
      ensures |c| == attributesNumber + 1
      ensures forall l :: 0 <= l < |c| ==> c[l] == CellAt(b, l, q)
    {
      seq(attributesNumber + 1, l reads cells => CellAt(b, l, q))
    }

    /** Board `b` as a value, layer by layer, each layer flat. */
    function Board(b: nat): (board: Board)
      requires b < cells.Length0
      reads cells
      ensures |board| == cells.Length1
      ensures forall l :: 0 <= l < |board| ==> |board[l]| == cells.Length2
    {
      seq(cells.Length1, l requires 0 <= l < cells.Length1 reads cells =>
        seq(cells.Length2, f requires 0 <= f < cells.Length2 reads cells => cells[b, l, f]))
    }

    /** A board whose cells all keep their values is the same board. */
    twostate lemma BoardUnchanged(b: nat)
      requires b < cells.Length0
      requires forall l, f :: 0 <= l < cells.Length1 && 0 <= f < cells.Length2 ==> cells[b, l, f] == old(cells[b, l, f])
      ensures Board(b) == old(Board(b))
    {
      assert forall l :: 0 <= l < cells.Length1 ==> Board(b)[l] == old(Board(b))[l];
    }

    /**
     * `flip`: advance both boards one step around the ring; the cells are
     * untouched.  With no boards, the writing board is incremented and then
     * `%= 0` raises ZeroDivisionError before the reading board is reached.
     */
    method Flip() returns (r: Outcome<Error>)
      requires Valid()
      modifies this`writingBoard, this`readingBoard
      ensures Valid()
      ensures r.Pass? <==> memoryLength >= 1
      ensures r.Fail? ==>
        r.error == DivisionByZero && writingBoard == old(writingBoard) + 1 && readingBoard == old(readingBoard)
      ensures r.Pass? ==>
        writingBoard == (old(writingBoard) + 1) % memoryLength &&
        readingBoard == (old(readingBoard) + 1) % memoryLength &&
        readingBoard == old(writingBoard)
    {
      if memoryLength == 0 {
        writingBoard := writingBoard + 1;
        return Fail(DivisionByZero);
      }
      AdvanceKeepsLag(writingBoard, memoryLength);
      writingBoard := Advance(writingBoard, memoryLength);
      readingBoard := Advance(readingBoard, memoryLength);
      r := Pass;
    }

    /** `__iter__`: a fresh iterator over the interior positions. */
    method Iter() returns (it: PositionIterator.NGridIterator)
      requires Valid()
      ensures fresh(it) && fresh(it.index) && it.Valid()
      ensures it.dimensions == dimensions && it.frontiersWidth == frontiersWidth
      ensures it.Pending() == Box(frontiersWidth, Sub(dimensions, frontiersWidth))
    {
      it := new PositionIterator.NGridIterator(dimensions, frontiersWidth);
    }

    /**
     * `__iter__` as written, as the positions it would yield.
     * `PositionIterator` derives from `ABCMeta`, which makes `NGridIterator`
     * a metaclass; calling it with the dimensions and the frontier widths
     * reaches `ABCMeta.__new__`, which also needs a namespace, so every call
     * raises TypeError.
     */
    function IterAsWritten(): (r: Result<seq<seq<int>>, Error>)
      ensures r.Err? && r.error == InvalidParameter
    {
      Err(InvalidParameter)
    }

    /** The interior box `Iter` has still to yield is never what the written `__iter__` gives. */
    lemma IterAsWrittenFails()
      requires Valid()
      ensures IterAsWritten() != Ok(Box(frontiersWidth, Sub(dimensions, frontiersWidth)))
    {
    }
  
    // -------------------------------------------------------------------
    // Reading

    /** `get_cell`: the column `[state, *attributes]` of one cell. */
    function GetCell(position: seq<int>, board: Option<nat>): (r: Result<seq<int>, Error>)
      requires Valid()
      reads this, cells
      ensures var b := ResolveBoard(board, readingBoard);
        (r.Ok? <==> 0 <= b < memoryLength && InGrid(position, dimensions)) &&
        (r.Err? ==> r.error == OutOfRange) &&
        (r.Ok? ==> |r.value| == attributesNumber + 1 &&
                   forall l :: 0 <= l < |r.value| ==> r.value[l] == CellAt(b, l, position))
    {
      var b := ResolveBoard(board, readingBoard);
      if 0 <= b < memoryLength && InGrid(position, dimensions) then
        FlattenIndex(dimensions, position);
        var f := Flatten(dimensions, position);
        Ok(seq(attributesNumber + 1, l requires 0 <= l <= attributesNumber reads cells => cells[b, l, f]))
      else Err(OutOfRange)
    }

    /** Every layer of board `b` over the block, each layer in the block's row-major order. */
    function ReadBlock(b: nat, blk: Block): (r: Board)
      requires Valid() && b < memoryLength && BlockFits(dimensions, blk.lo, blk.sizes)
      reads this, cells
      ensures |r| == attributesNumber + 1
      ensures forall l :: 0 <= l < |r| ==> |r[l]| == Product(blk.sizes)
      ensures forall l, k :: 0 <= l < |r| && 0 <= k < Product(blk.sizes) ==>
        r[l][k] == CellAt(b, l, Add(blk.lo, Grid(blk.sizes)[k]))
    {
      seq(attributesNumber + 1, l requires 0 <= l <= attributesNumber reads cells =>
        seq(Product(blk.sizes), k requires 0 <= k < Product(blk.sizes) reads cells =>
          cells[b, l, BlockTarget(dimensions, blk.lo, blk.sizes, k)]))
    }

    /** The whole grid read as a block is the board itself. */
    lemma ReadWholeBlock(b: nat)
      requires Valid() && b < memoryLength
      ensures BlockFits(dimensions, Zeros(|dimensions|), dimensions)
      ensures ReadBlock(b, Block(Zeros(|dimensions|), dimensions)) == Board(b)
    {
      WholeBlockTarget(dimensions);
      var whole := ReadBlock(b, Block(Zeros(|dimensions|), dimensions));
      forall l | 0 <= l <= attributesNumber ensures whole[l] == Board(b)[l] {
        forall k | 0 <= k < Product(dimensions) ensures whole[l][k] == Board(b)[l][k] {
        }
      }
    }

    /** `get_cells`: every layer of the block the subregion slices out, each layer row-major. */
    function GetCells(subregion: Option<Subregion>, board: Option<nat>): (r: Result<Board, Error>)
      requires Valid()
      reads this, cells
      ensures var b := ResolveBoard(board, readingBoard);
        (r.Ok? <==> 0 <= b < memoryLength && (subregion.None? || |subregion.value| <= |dimensions|)) &&
        (r.Err? ==> r.error == OutOfRange) &&
        (r.Ok? ==> r.value == ReadBlock(b, SliceBlock(subregion, dimensions)))
      ensures r.Ok? && subregion.None? ==> r.value == Board(ResolveBoard(board, readingBoard))
    {
      var b := ResolveBoard(board, readingBoard);
      if 0 <= b < memoryLength && (subregion.None? || |subregion.value| <= |dimensions|) then
        if subregion.None? then
          WholeBlock(dimensions);
          ReadWholeBlock(b);
          assert SliceBlock(subregion, dimensions) == Block(Zeros(|dimensions|), dimensions);
          Ok(ReadBlock(b, SliceBlock(subregion, dimensions)))
        else Ok(ReadBlock(b, SliceBlock(subregion, dimensions)))
      else Err(OutOfRange)
    }

    /** Reading a board layer as a flat array agrees with reading the cell. */
    lemma BoardCell(b: nat, l: nat)
      requires Valid() && b < memoryLength && l <= attributesNumber
      ensures forall q :: LayerAt(Board(b)[l], dimensions, q) == CellAt(b, l, q)
    {
      forall q ensures LayerAt(Board(b)[l], dimensions, q) == CellAt(b, l, q) {
        if InGrid(q, dimensions) {
          FlattenIndex(dimensions, q);
        }
      }
    }

    /** Board `b`'s layer `l` gathered at in-grid coordinates reads those cells. */
    lemma GatherBoard(b: nat, l: nat, cs: seq<seq<int>>)
      requires Valid() && b < memoryLength && l <= attributesNumber
      requires forall k :: 0 <= k < |cs| ==> InGrid(cs[k], dimensions)
      ensures forall k :: 0 <= k < |cs| ==> Gather(Board(b)[l], dimensions, cs)[k] == CellAt(b, l, cs[k])
    {
      forall k | 0 <= k < |cs| ensures Gather(Board(b)[l], dimensions, cs)[k] == CellAt(b, l, cs[k]) {
        FlattenIndex(dimensions, cs[k]);
      }
    }

    /**
     * `get_states`: the state layer, whole with frontiers, otherwise only its
     * interior (the cells off the frontier mask, `subDimensions` shaped).
     */
    function GetStates(board: Option<nat>, withFrontiers: bool): (r: Result<seq<int>, Error>)
      requires Valid()
      reads this, cells
      ensures var b := ResolveBoard(board, readingBoard);
        (r.Ok? <==> 0 <= b < memoryLength && (withFrontiers || forall i :: 0 <= i < |subDimensions| ==> subDimensions[i] >= 0)) &&
        (r.Err? ==> r.error == (if 0 <= b < memoryLength then ShapeMismatch else OutOfRange)) &&
        (r.Ok? && withFrontiers ==> r.value == Board(b)[0]) &&
        (r.Ok? && !withFrontiers ==>
          var interior := Box(frontiersWidth, Sub(dimensions, frontiersWidth));
          |r.value| == |interior| &&
          forall k :: 0 <= k < |r.value| ==> r.value[k] == CellAt(b, 0, interior[k]))
    {
      var b := ResolveBoard(board, readingBoard);
      if !(0 <= b < memoryLength) then Err(OutOfRange)
      else if withFrontiers then Ok(Board(b)[0])
      else if exists i :: 0 <= i < |subDimensions| && subDimensions[i] < 0 then Err(ShapeMismatch)
      else
        InteriorSelection(dimensions, frontiersWidth, Board(b)[0]);
        GatherBoard(b, 0, Box(frontiersWidth, Sub(dimensions, frontiersWidth)));
        Ok(Compress(Board(b)[0], NotMask(frontierMask)))
    }

    /** The interior of attribute layer `j + 1` of board `b`, in row-major order. */
    function InteriorAttribute(b: nat, j: nat): (r: seq<int>)
      requires Valid() && b < memoryLength && j < attributesNumber
      reads this, cells
      ensures var interior := Box(frontiersWidth, Sub(dimensions, frontiersWidth));
        |r| == |interior| && forall k :: 0 <= k < |r| ==> r[k] == CellAt(b, j + 1, interior[k])
    {
      InteriorSelection(dimensions, frontiersWidth, Board(b)[j + 1]);
      GatherBoard(b, j + 1, Box(frontiersWidth, Sub(dimensions, frontiersWidth)));
      Compress(Board(b)[j + 1], NotMask(frontierMask))
    }

    /** `get_attributes`: the attribute layers, whole or only their interior, as `get_states` does. */
    function GetAttributes(board: Option<nat>, withFrontiers: bool): (r: Result<Board, Error>)
      requires Valid()
      reads this, cells
      ensures var b := ResolveBoard(board, readingBoard);
        (r.Ok? <==> 0 <= b < memoryLength && (withFrontiers || forall i :: 0 <= i < |subDimensions| ==> subDimensions[i] >= 0)) &&
        (r.Err? ==> r.error == (if 0 <= b < memoryLength then ShapeMismatch else OutOfRange)) &&
        (r.Ok? ==> |r.value| == attributesNumber) &&
        (r.Ok? && withFrontiers ==> r.value == Board(b)[1..]) &&
        (r.Ok? && !withFrontiers ==>
          var interior := Box(frontiersWidth, Sub(dimensions, frontiersWidth));
          forall j :: 0 <= j < |r.value| ==>
            |r.value[j]| == |interior| &&
            forall k :: 0 <= k < |interior| ==> r.value[j][k] == CellAt(b, j + 1, interior[k]))
    {
      var b := ResolveBoard(board, readingBoard);
      if !(0 <= b < memoryLength) then Err(OutOfRange)
      else if withFrontiers then Ok(Board(b)[1..])
      else if exists i :: 0 <= i < |subDimensions| && subDimensions[i] < 0 then Err(ShapeMismatch)
      else Ok(seq(attributesNumber, j requires 0 <= j < attributesNumber && Valid() reads this, cells =>
        InteriorAttribute(b, j)))
    }

    /** Every layer of board `b`, read as a flat array, agrees with reading the cells. */
    lemma BoardCells(b: nat)
      requires Valid() && b < memoryLength
      ensures forall l, q :: 0 <= l <= attributesNumber ==> LayerAt(Board(b)[l], dimensions, q) == CellAt(b, l, q)
    {
      forall l | 0 <= l <= attributesNumber
        ensures forall q :: LayerAt(Board(b)[l], dimensions, q) == CellAt(b, l, q)
      {
        BoardCell(b, l);
      }
    }

    /**
     * `apply_mask`: the states (and attributes, when cells have any) of the
     * reading board under `mask` laid at `position`, in the mask's row-major
     * order.  The mask must fit inside the grid at that position; with no
     * boards, indexing the reading board -1 is an index error.
     */
    function ApplyMask(position: seq<int>, mask: Mask): (r: Result<MaskValues, Error>)
      requires Valid() && mask.Valid()
      reads this, cells
      ensures memoryLength == 0 ==> r == Err(OutOfRange)
      ensures memoryLength >= 1 ==> r == BoardUnderMask(Board(readingBoard), dimensions, attributesNumber, position, mask)
      ensures r.Ok? ==>
        var sel := Selected(mask);
        |r.value.states| == |sel| &&
        (forall i :: 0 <= i < |sel| ==> r.value.states[i] == CellAt(readingBoard, 0, Add(position, sel[i]))) &&
        (r.value.attributes.Some? ==>
          forall j :: 0 <= j < attributesNumber ==>
            |r.value.attributes.value[j]| == |sel| &&
            forall i :: 0 <= i < |sel| ==>
              r.value.attributes.value[j][i] == CellAt(readingBoard, j + 1, Add(position, sel[i])))
    {
      if memoryLength == 0 then Err(OutOfRange)
      else
        BoardCells(readingBoard);
        BoardUnderMask(Board(readingBoard), dimensions, attributesNumber, position, mask)
    }

    /**
     * `apply_mask` as written: building the slices reads one coordinate per
     * mask axis, so a shorter position raises IndexError; every other call
     * reads `self.states` and `self.read_buffer`, fields this class never
     * defines, and raises AttributeError.
     */
    function ApplyMaskAsWritten(position: seq<int>, mask: Mask): (r: Result<MaskValues, Error>)
      ensures r.Err?
      ensures r.error == (if |position| < |mask.shape| then OutOfRange else MissingAttribute)
    {
      if |position| < |mask.shape| then Err(OutOfRange) else Err(MissingAttribute)
    }

    /** Wherever a mask fits on an existing board, the intended `apply_mask` answers and the written one raises. */
    lemma ApplyMaskAsWrittenFails(position: seq<int>, mask: Mask)
      requires Valid() && memoryLength >= 1 && mask.Valid() && MaskFits(dimensions, position, mask.shape)
      ensures ApplyMask(position, mask).Ok?
      ensures ApplyMaskAsWritten(position, mask) == Err(MissingAttribute)
    {
    }

    // -------------------------------------------------------------------
    // Writing

    /** Writes `vals` into layers `first, first + 1, ...` of flat cell `f` of board `b`. */
    method WriteColumn(b: nat, f: nat, first: nat, vals: seq<int>)
      requires Valid() && b < memoryLength && f < Product(dimensions) && first + |vals| <= attributesNumber + 1
      modifies cells
      ensures forall b', l, g :: 0 <= b' < cells.Length0 && 0 <= l < cells.Length1 && 0 <= g < cells.Length2 ==>
        cells[b', l, g] == if b' == b && g == f && first <= l < first + |vals| then vals[l - first] else old(cells[b', l, g])
    {
      var j := 0;
      while j < |vals|
        invariant 0 <= j <= |vals|
        invariant forall b', l, g :: 0 <= b' < cells.Length0 && 0 <= l < cells.Length1 && 0 <= g < cells.Length2 ==>
          cells[b', l, g] == if b' == b && g == f && first <= l < first + j then vals[l - first] else old(cells[b', l, g])
      {
        cells[b, first + j, f] := vals[j];
        j := j + 1;
      }
    }

    /**
     * Writes the flat arrays `values` (one per layer, in the block's row-major
     * order) into layers `first, first + 1, ...` of the block `blk` of board `b`.
     */
    method WriteBlock(b: nat, blk: Block, first: nat, values: seq<seq<int>>)
      requires Valid() && b < memoryLength && BlockFits(dimensions, blk.lo, blk.sizes)
      requires first + |values| <= attributesNumber + 1
      requires forall j :: 0 <= j < |values| ==> |values[j]| == Product(blk.sizes)
      modifies cells
      ensures forall b', l, g :: 0 <= b' < cells.Length0 && 0 <= l < cells.Length1 && 0 <= g < cells.Length2 ==>
        cells[b', l, g] ==
          if b' == b && first <= l < first + |values| && InBlock(Grid(dimensions)[g], blk.lo, blk.sizes)
          then values[l - first][BlockRank(blk.lo, blk.sizes, Grid(dimensions)[g])]
          else old(cells[b', l, g])
    {
      var n := Product(blk.sizes);
      var k := 0;
      while k < n
        invariant 0 <= k <= n
        invariant forall b', l, g :: 0 <= b' < cells.Length0 && 0 <= l < cells.Length1 && 0 <= g < cells.Length2 ==>
          cells[b', l, g] ==
            if b' == b && first <= l < first + |values| && InBlock(Grid(dimensions)[g], blk.lo, blk.sizes)
               && BlockRank(blk.lo, blk.sizes, Grid(dimensions)[g]) < k
            then values[l - first][BlockRank(blk.lo, blk.sizes, Grid(dimensions)[g])]
            else old(cells[b', l, g])
      {
        var f := BlockTarget(dimensions, blk.lo, blk.sizes, k);
        WriteColumn(b, f, first, seq(|values|, j requires 0 <= j < |values| => values[j][k]));
        forall g | 0 <= g < Product(dimensions)
          ensures (g == f) <==> (InBlock(Grid(dimensions)[g], blk.lo, blk.sizes)
                                 && BlockRank(blk.lo, blk.sizes, Grid(dimensions)[g]) == k)
        {
          BlockTargetIff(dimensions, blk.lo, blk.sizes, k, g);
        }
        k := k + 1;
      }
    }

    /** Writes `vals[j]` into layer `first + j` of every cell of the block `blk` of board `b`. */
    method FillBlock(b: nat, blk: Block, first: nat, vals: seq<int>)
      requires Valid() && b < memoryLength && BlockFits(dimensions, blk.lo, blk.sizes)
      requires first + |vals| <= attributesNumber + 1
      modifies cells
      ensures forall b', l, g :: 0 <= b' < cells.Length0 && 0 <= l < cells.Length1 && 0 <= g < cells.Length2 ==>
        cells[b', l, g] ==
          if b' == b && first <= l < first + |vals| && InBlock(Grid(dimensions)[g], blk.lo, blk.sizes)
          then vals[l - first]
          else old(cells[b', l, g])
    {
      var n := Product(blk.sizes);
      var values := seq(|vals|, j requires 0 <= j < |vals| => seq(n, _ => vals[j]));
      WriteBlock(b, blk, first, values);
      forall b', l, g | 0 <= b' < cells.Length0 && 0 <= l < cells.Length1 && 0 <= g < cells.Length2
        ensures cells[b', l, g] ==
          if b' == b && first <= l < first + |vals| && InBlock(Grid(dimensions)[g], blk.lo, blk.sizes)
          then vals[l - first]
          else old(cells[b', l, g])
      {
        if b' == b && first <= l < first + |vals| && InBlock(Grid(dimensions)[g], blk.lo, blk.sizes) {
          var k := BlockRank(blk.lo, blk.sizes, Grid(dimensions)[g]);
          assert values[l - first][k] == vals[l - first];
        }
      }
    }

    /**
     * `set_cell_value`: writes `[cellState, *cellAttributes]` into one cell of
     * the writing board (or of `board`), leaving every other cell alone.
     */
    method SetCellValue(position: seq<int>, cellState: int, cellAttributes: Option<seq<int>>, board: Option<nat>)
      returns (r: Outcome<Error>)
      requires Valid()
      modifies cells
      ensures Valid()
      ensures var b := ResolveBoard(board, writingBoard);
        r == if !(0 <= b < memoryLength && InGrid(position, dimensions)) then Fail(OutOfRange)
             else if !AttributesFit(cellAttributes, attributesNumber) then Fail(InvalidParameter)
             else Pass
      ensures forall b', l, g :: 0 <= b' < cells.Length0 && 0 <= l < cells.Length1 && 0 <= g < cells.Length2 ==>
        cells[b', l, g] ==
          if r.Pass? && b' == ResolveBoard(board, writingBoard) && g == Flatten(dimensions, position)
          then CellValues(cellState, cellAttributes)[l]
          else old(cells[b', l, g])
      ensures forall b', l, q ::
                CellAt(b', l, q) ==
                  if r.Pass? && b' == ResolveBoard(board, writingBoard) && 0 <= l <= attributesNumber && q == position
                  then CellValues(cellState, cellAttributes)[l]
                  else old(CellAt(b', l, q))
      ensures forall b' :: 0 <= b' < memoryLength && (r.Fail? || b' != ResolveBoard(board, writingBoard)) ==>
                Board(b') == old(Board(b'))
    {
      var b := ResolveBoard(board, writingBoard);
      if !(0 <= b < memoryLength && InGrid(position, dimensions)) {
        return Fail(OutOfRange);
      }
      if !AttributesFit(cellAttributes, attributesNumber) {
        return Fail(InvalidParameter);
      }
      FlattenIndex(dimensions, position);
      var f := Flatten(dimensions, position);
      WriteColumn(b, f, 0, CellValues(cellState, cellAttributes));
      r := Pass;
      forall b', l, q ensures CellAt(b', l, q) ==
        if b' == b && 0 <= l <= attributesNumber && q == position
        then CellValues(cellState, cellAttributes)[l]
        else old(CellAt(b', l, q))
      {
        if 0 <= b' < memoryLength && 0 <= l <= attributesNumber && InGrid(q, dimensions) {
          FlattenIndex(dimensions, q);
          if q != position {
            FlattenInjective(dimensions, q, position);
          }
        }
      }
      forall b' | 0 <= b' < memoryLength && b' != b ensures Board(b') == old(Board(b')) {
        forall l | 0 <= l <= attributesNumber ensures Board(b')[l] == old(Board(b'))[l] {
        }
      }
    }

    /**
     * `set_border_cell_values`: writes `[cellState, *cellAttributes]` into every
     * frontier cell of the board; the interior and the other boards keep their values.
     */
    method SetBorderCellValues(cellState: int, cellAttributes: Option<seq<int>>, board: Option<nat>)
      returns (r: Outcome<Error>)
      requires Valid()
      modifies cells
      ensures Valid()
      ensures var b := ResolveBoard(board, writingBoard);
        r == if !AttributesFit(cellAttributes, attributesNumber) then Fail(InvalidParameter)
             else if !(0 <= b < memoryLength) then Fail(OutOfRange)
             else Pass
      ensures forall b', l, g :: 0 <= b' < cells.Length0 && 0 <= l < cells.Length1 && 0 <= g < cells.Length2 ==>
        cells[b', l, g] ==
          if r.Pass? && b' == ResolveBoard(board, writingBoard) && frontierMask[g]
          then CellValues(cellState, cellAttributes)[l]
          else old(cells[b', l, g])
    {
      var b := ResolveBoard(board, writingBoard);
      if !AttributesFit(cellAttributes, attributesNumber) {
        return Fail(InvalidParameter);
      }
      if !(0 <= b < memoryLength) {
        return Fail(OutOfRange);
      }
      FillFrontier(b, CellValues(cellState, cellAttributes));
      r := Pass;
    }

    /** Writes the column `vals` into every frontier cell of board `b`. */
    method FillFrontier(b: nat, vals: seq<int>)
      requires Valid() && b < memoryLength && |vals| == attributesNumber + 1
      modifies cells
      ensures forall b', l, g :: 0 <= b' < cells.Length0 && 0 <= l < cells.Length1 && 0 <= g < cells.Length2 ==>
        cells[b', l, g] == if b' == b && frontierMask[g] then vals[l] else old(cells[b', l, g])
    {
      var f := 0;
      while f < Product(dimensions)
        invariant 0 <= f <= Product(dimensions)
        invariant forall b', l, g :: 0 <= b' < cells.Length0 && 0 <= l < cells.Length1 && 0 <= g < cells.Length2 ==>
          cells[b', l, g] == if b' == b && g < f && frontierMask[g] then vals[l] else old(cells[b', l, g])
      {
        if frontierMask[f] {
          WriteColumn(b, f, 0, vals);
        }
        f := f + 1;
      }
    }

    /** `set_cells_values`: the broadcast `[cellState, *cellAttributes]` over every layer of an exact subregion. */
    method SetCellsValues(cellState: int, cellAttributes: Option<seq<int>>, subregion: Option<Subregion>, board: Option<nat>)
      returns (r: Outcome<Error>)
      requires Valid()
      modifies cells
      ensures Valid()
      ensures r == ExactRegionOutcome(AttributesFit(cellAttributes, attributesNumber), subregion,
                                      ResolveBoard(board, writingBoard), memoryLength, dimensions)
      ensures forall b', l, g :: 0 <= b' < cells.Length0 && 0 <= l < cells.Length1 && 0 <= g < cells.Length2 ==>
        cells[b', l, g] ==
          if r.Pass? && b' == ResolveBoard(board, writingBoard)
             && InBlock(Grid(dimensions)[g], SliceBlock(subregion, dimensions).lo, SliceBlock(subregion, dimensions).sizes)
          then CellValues(cellState, cellAttributes)[l]
          else old(cells[b', l, g])
    {
      var b := ResolveBoard(board, writingBoard);
      r := ExactRegionOutcome(AttributesFit(cellAttributes, attributesNumber), subregion, b, memoryLength, dimensions);
      if r.Fail? {
        return;
      }
      var blk := SliceBlock(subregion, dimensions);
      var vals := CellValues(cellState, cellAttributes);
      FillBlock(b, blk, 0, vals);
      assert Valid();
    }

    /** `set_cells_state_values`: `cellState` into the state layer of the sliced subregion. */
    method SetCellsStateValues(cellState: int, subregion: Option<Subregion>, board: Option<nat>)
      returns (r: Outcome<Error>)
      requires Valid()
      modifies cells
      ensures Valid()
      ensures r == SlicedRegionOutcome(true, subregion, ResolveBoard(board, writingBoard), memoryLength, dimensions)
      ensures forall b', l, g :: 0 <= b' < cells.Length0 && 0 <= l < cells.Length1 && 0 <= g < cells.Length2 ==>
        cells[b', l, g] ==
          if r.Pass? && b' == ResolveBoard(board, writingBoard) && l == 0
             && InBlock(Grid(dimensions)[g], SliceBlock(subregion, dimensions).lo, SliceBlock(subregion, dimensions).sizes)
          then cellState
          else old(cells[b', l, g])
    {
      var b := ResolveBoard(board, writingBoard);
      r := SlicedRegionOutcome(true, subregion, b, memoryLength, dimensions);
      if r.Fail? {
        return;
      }
      var blk := SliceBlock(subregion, dimensions);
      FillBlock(b, blk, 0, [cellState]);
      assert Valid();
    }

    /**
     * `set_cells_attributes_values`: the broadcast `cellAttributes` over the
     * attribute layers of an exact subregion; with no attributes `None`
     * broadcasts to no layers at all.
     */
    method SetCellsAttributesValues(cellAttributes: Option<seq<int>>, subregion: Option<Subregion>, board: Option<nat>)
      returns (r: Outcome<Error>)
      requires Valid()
      modifies cells
      ensures Valid()
      ensures r == ExactRegionOutcome(AttributesFit(cellAttributes, attributesNumber), subregion,
                                      ResolveBoard(board, writingBoard), memoryLength, dimensions)
      ensures forall b', l, g :: 0 <= b' < cells.Length0 && 0 <= l < cells.Length1 && 0 <= g < cells.Length2 ==>
        cells[b', l, g] ==
          if r.Pass? && b' == ResolveBoard(board, writingBoard) && l >= 1
             && InBlock(Grid(dimensions)[g], SliceBlock(subregion, dimensions).lo, SliceBlock(subregion, dimensions).sizes)
          then cellAttributes.value[l - 1]
          else old(cells[b', l, g])
    {
      var b := ResolveBoard(board, writingBoard);
      r := ExactRegionOutcome(AttributesFit(cellAttributes, attributesNumber), subregion, b, memoryLength, dimensions);
      if r.Fail? {
        return;
      }
      var blk := SliceBlock(subregion, dimensions);
      var vals := if cellAttributes.Some? then cellAttributes.value else [];
      FillBlock(b, blk, 1, vals);
      assert Valid();
    }

    /** `set_cells_states_from_array`: the flat row-major `data` into the state layer of the sliced subregion. */
    method SetCellsStatesFromArray(data: seq<int>, subregion: Option<Subregion>, board: Option<nat>)
      returns (r: Outcome<Error>)
      requires Valid()
      modifies cells
      ensures Valid()
      ensures var blk := SliceBlock(subregion, dimensions);
        r == SlicedRegionOutcome(|data| == Product(blk.sizes), subregion,
                                 ResolveBoard(board, writingBoard), memoryLength, dimensions)
      ensures var blk := SliceBlock(subregion, dimensions);
        forall b', l, g :: 0 <= b' < cells.Length0 && 0 <= l < cells.Length1 && 0 <= g < cells.Length2 ==>
          cells[b', l, g] ==
            if r.Pass? && b' == ResolveBoard(board, writingBoard) && l == 0 && InBlock(Grid(dimensions)[g], blk.lo, blk.sizes)
            then data[BlockRank(blk.lo, blk.sizes, Grid(dimensions)[g])]
            else old(cells[b', l, g])
    {
      var b := ResolveBoard(board, writingBoard);
      var blk := SliceBlock(subregion, dimensions);
      r := SlicedRegionOutcome(|data| == Product(blk.sizes), subregion, b, memoryLength, dimensions);
      if r.Fail? {
        return;
      }
      WriteBlock(b, blk, 0, [data]);
      assert Valid();
    }

    /** `set_cells_attributes_from_array`: `data[j]`, flat row-major, into attribute layer `j + 1` of the sliced subregion. */
    method SetCellsAttributesFromArray(data: seq<seq<int>>, subregion: Option<Subregion>, board: Option<nat>)
      returns (r: Outcome<Error>)
      requires Valid()
      modifies cells
      ensures Valid()
      ensures var blk := SliceBlock(subregion, dimensions);
        r == SlicedRegionOutcome(FlatLayers(data, attributesNumber, Product(blk.sizes)),
                                 subregion, ResolveBoard(board, writingBoard), memoryLength, dimensions)
      ensures var blk := SliceBlock(subregion, dimensions);
        forall b', l, g :: 0 <= b' < cells.Length0 && 0 <= l < cells.Length1 && 0 <= g < cells.Length2 ==>
          cells[b', l, g] ==
            if r.Pass? && b' == ResolveBoard(board, writingBoard) && l >= 1 && InBlock(Grid(dimensions)[g], blk.lo, blk.sizes)
            then data[l - 1][BlockRank(blk.lo, blk.sizes, Grid(dimensions)[g])]
            else old(cells[b', l, g])
    {
      var b := ResolveBoard(board, writingBoard);
      var blk := SliceBlock(subregion, dimensions);
      r := SlicedRegionOutcome(FlatLayers(data, attributesNumber, Product(blk.sizes)),
                               subregion, b, memoryLength, dimensions);
      if r.Fail? {
        return;
      }
      WriteLastLayers(b, blk, 1, data);
    }

    /** Writes the flat arrays `data[j]` into layer `first + j` of the block `blk` of board `b`, up to the last layer. */
    method WriteLastLayers(b: nat, blk: Block, first: nat, data: seq<seq<int>>)
      requires Valid() && b < memoryLength && BlockFits(dimensions, blk.lo, blk.sizes)
      requires first <= attributesNumber + 1 && FlatLayers(data, attributesNumber + 1 - first, Product(blk.sizes))
      modifies cells
      ensures forall b', l, g :: 0 <= b' < cells.Length0 && 0 <= l < cells.Length1 && 0 <= g < cells.Length2 ==>
        cells[b', l, g] ==
          if b' == b && l >= first && InBlock(Grid(dimensions)[g], blk.lo, blk.sizes)
          then data[l - first][BlockRank(blk.lo, blk.sizes, Grid(dimensions)[g])]
          else old(cells[b', l, g])
    {
      assert first + |data| == cells.Length1;
      WriteBlock(b, blk, first, data);
    }

    /** `set_cells_from_array`: `data[l]`, flat row-major, into layer `l` (states first) of the sliced subregion. */
    method SetCellsFromArray(data: seq<seq<int>>, subregion: Option<Subregion>, board: Option<nat>)
      returns (r: Outcome<Error>)
      requires Valid()
      modifies cells
      ensures Valid()
      ensures var blk := SliceBlock(subregion, dimensions);
        r == SlicedRegionOutcome(FlatLayers(data, attributesNumber + 1, Product(blk.sizes)),
                                 subregion, ResolveBoard(board, writingBoard), memoryLength, dimensions)
      ensures var blk := SliceBlock(subregion, dimensions);
        forall b', l, g :: 0 <= b' < cells.Length0 && 0 <= l < cells.Length1 && 0 <= g < cells.Length2 ==>
          cells[b', l, g] ==
            if r.Pass? && b' == ResolveBoard(board, writingBoard) && InBlock(Grid(dimensions)[g], blk.lo, blk.sizes)
            then data[l][BlockRank(blk.lo, blk.sizes, Grid(dimensions)[g])]
            else old(cells[b', l, g])
    {
      var b := ResolveBoard(board, writingBoard);
      var blk := SliceBlock(subregion, dimensions);
      r := SlicedRegionOutcome(FlatLayers(data, attributesNumber + 1, Product(blk.sizes)),
                               subregion, b, memoryLength, dimensions);
      if r.Fail? {
        return;
      }
      WriteLastLayers(b, blk, 0, data);
    }
  }
}
