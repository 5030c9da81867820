/**
 * `NGridIterator`: walks every coordinate of the full grid in row-major
 * order and yields only the interior (non-frontier) ones. `dimensions` is
 * the full grid extent, `frontiersWidth` the frontier thickness per axis.
 */
module PositionIterator {
  import opened Wrappers
  import opened NdIndex

  /** The filter `frontiers_width - 1 < c < dimensions - frontiers_width` on every axis. */
  predicate Admits(c: seq<int>, dimensions: seq<nat>, frontiersWidth: seq<nat>)
    requires |c| == |dimensions| == |frontiersWidth|
  {
    forall i :: 0 <= i < |c| ==> frontiersWidth[i] - 1 < c[i] && c[i] < dimensions[i] as int - frontiersWidth[i]
  }

  /** The range `np.ndindex` scans: `dimensions + frontiers_width`. */
  function ScanShape(dimensions: seq<nat>, frontiersWidth: seq<nat>): (r: seq<nat>)
    requires |dimensions| == |frontiersWidth|
    ensures |r| == |dimensions|
  {
    seq(|dimensions|, i requires 0 <= i < |dimensions| => dimensions[i] + frontiersWidth[i])
  }

  /**
   * What the iterator yields over its whole life: the scanned coordinates
   * that pass the filter, in scan order. This is exactly the interior box.
   */
  lemma Yields(dimensions: seq<nat>, frontiersWidth: seq<nat>)
    requires |dimensions| == |frontiersWidth|
    ensures KeepInBox(Grid(ScanShape(dimensions, frontiersWidth)), frontiersWidth, Sub(dimensions, frontiersWidth))
         == Box(frontiersWidth, Sub(dimensions, frontiersWidth))
  {
    KeepGrid(ScanShape(dimensions, frontiersWidth), frontiersWidth, Sub(dimensions, frontiersWidth));
  }

  /** Every yielded coordinate is interior, and every interior coordinate is yielded. */
  lemma YieldsExactlyInterior(dimensions: seq<nat>, frontiersWidth: seq<nat>, c: seq<int>)
    requires |dimensions| == |frontiersWidth|
    ensures c in Box(frontiersWidth, Sub(dimensions, frontiersWidth))
        <==> |c| == |dimensions| && forall i :: 0 <= i < |c| ==> frontiersWidth[i] <= c[i] < dimensions[i] as int - frontiersWidth[i]
  {
    BoxMember(frontiersWidth, Sub(dimensions, frontiersWidth), c);
  }

  /**
   * The number of yielded coordinates is the product over the axes of
   * max(0, dimensions[i] - 2 * frontiersWidth[i]); nothing is yielded when
   * one axis is too narrow to have an interior.
   */
  lemma YieldCount(dimensions: seq<nat>, frontiersWidth: seq<nat>)
    requires |dimensions| == |frontiersWidth|
    ensures var sizes := Sizes(frontiersWidth, Sub(dimensions, frontiersWidth));
      && (forall i :: 0 <= i < |sizes| ==> sizes[i] == Max(0, dimensions[i] as int - 2 * frontiersWidth[i]))
      && |Box(frontiersWidth, Sub(dimensions, frontiersWidth))| == Product(sizes)
    ensures (exists i :: 0 <= i < |dimensions| && dimensions[i] <= 2 * frontiersWidth[i])
        ==> Box(frontiersWidth, Sub(dimensions, frontiersWidth)) == []
  {
    var sizes := Sizes(frontiersWidth, Sub(dimensions, frontiersWidth));
    BoxLength(frontiersWidth, Sub(dimensions, frontiersWidth));
    if i :| 0 <= i < |dimensions| && dimensions[i] <= 2 * frontiersWidth[i] {
      ProductZero(sizes, i);
    }
  }

  /** Coordinates come in strictly increasing row-major order, so none repeats. */
  lemma YieldOrder(dimensions: seq<nat>, frontiersWidth: seq<nat>)
    requires |dimensions| == |frontiersWidth|
    ensures StrictlyIncreasing(Box(frontiersWidth, Sub(dimensions, frontiersWidth)))
    ensures var b := Box(frontiersWidth, Sub(dimensions, frontiersWidth));
      forall j, k :: 0 <= j < k < |b| ==> b[j] != b[k]
  {
    var b := Box(frontiersWidth, Sub(dimensions, frontiersWidth));
    BoxIncreasing(frontiersWidth, Sub(dimensions, frontiersWidth));
    forall j, k | 0 <= j < k < |b| ensures b[j] != b[k] {
      IncreasingDistinct(b, j, k);
    }
  }

  /** With no frontier the iterator yields every cell of the grid. */
  lemma NoFrontierYieldsGrid(dimensions: seq<nat>, frontiersWidth: seq<nat>)
    requires |dimensions| == |frontiersWidth|
    requires forall i :: 0 <= i < |frontiersWidth| ==> frontiersWidth[i] == 0
    ensures Box(frontiersWidth, Sub(dimensions, frontiersWidth)) == Grid(dimensions)
  {
    var z := Zeros(|dimensions|);
    var hi := Sub(dimensions, frontiersWidth);
    assert frontiersWidth == z by {
      assert forall i :: 0 <= i < |z| ==> frontiersWidth[i] == z[i];
    }
    assert hi == dimensions by {
      assert forall i :: 0 <= i < |hi| ==> hi[i] == dimensions[i];
    }
  }

  class NGridIterator {
    const dimensions: seq<nat>
    const frontiersWidth: seq<nat>
    const index: NdIndexIterator

    ghost predicate Valid()
      reads this, index
    {
      |dimensions| == |frontiersWidth| &&
      index.shape == ScanShape(dimensions, frontiersWidth) &&
      index.Valid()
    }

    /** The coordinates still to be yielded. */
    ghost function Pending(): seq<seq<int>>
      reads this, index
      requires Valid()
    {
      KeepInBox(Grid(index.shape)[index.consumed..], frontiersWidth, Sub(dimensions, frontiersWidth))
    }

    constructor (dimensions: seq<nat>, frontiersWidth: seq<nat>)
      requires |dimensions| == |frontiersWidth|
      ensures Valid() && fresh(index)
      ensures this.dimensions == dimensions && this.frontiersWidth == frontiersWidth
      ensures Pending() == Box(frontiersWidth, Sub(dimensions, frontiersWidth))
    {
      this.dimensions := dimensions;
      this.frontiersWidth := frontiersWidth;
      index := new NdIndexIterator(ScanShape(dimensions, frontiersWidth));
      new;
      Yields(dimensions, frontiersWidth);
    }

    /**
     * `__next__`: advance the scan until a coordinate passes the filter;
     * `None` stands for StopIteration once the scan is exhausted.
     */
    method Next() returns (position: Option<seq<int>>)
      requires Valid()
      modifies index
      ensures Valid()
      ensures old(Pending()) == [] ==> position == None && Pending() == []
      ensures old(Pending()) != [] ==> position == Some(old(Pending())[0]) && Pending() == old(Pending())[1..]
    {
      while true
        invariant Valid()
        invariant Pending() == old(Pending())
        decreases |Grid(index.shape)| - index.consumed
      {
        ghost var k := index.consumed;
        var coordinate := index.Next();
        if coordinate.None? {
          return None;
        }
        KeepSuffix(Grid(index.shape), k, frontiersWidth, Sub(dimensions, frontiersWidth));
        GridElement(index.shape, k);
        if Admits(coordinate.value, dimensions, frontiersWidth) {
          return coordinate;
        }
      }
    }
  }
}
