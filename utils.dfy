/**
 * The older `PositionIterator`: here `dimensions` is the interior extent and
 * `borderWidths` the border thickness, so the interior box is
 * [borderWidths, dimensions + borderWidths).
 */
module Utils {
  import opened Wrappers
  import opened NdIndex

  /** The filter `border_widths - 1 < c < dimensions + border_widths` on every axis. */
  predicate Admits(c: seq<int>, dimensions: seq<nat>, borderWidths: seq<nat>)
    requires |c| == |dimensions| == |borderWidths|
  {
    forall i :: 0 <= i < |c| ==> borderWidths[i] - 1 < c[i] && c[i] < dimensions[i] + borderWidths[i]
  }

  /** `dimensions + border_widths`: both the scanned range and the upper bound of the filter. */
  function Upper(dimensions: seq<nat>, borderWidths: seq<nat>): (r: seq<nat>)
    requires |dimensions| == |borderWidths|
    ensures |r| == |dimensions|
    ensures forall i :: 0 <= i < |r| ==> r[i] == dimensions[i] + borderWidths[i]
  {
    seq(|dimensions|, i requires 0 <= i < |dimensions| => dimensions[i] + borderWidths[i])
  }

  /** Over its whole life the iterator yields exactly the interior box, in row-major order. */
  lemma Yields(dimensions: seq<nat>, borderWidths: seq<nat>)
    requires |dimensions| == |borderWidths|
    ensures KeepInBox(Grid(Upper(dimensions, borderWidths)), borderWidths, Upper(dimensions, borderWidths))
         == Box(borderWidths, Upper(dimensions, borderWidths))
  {
    KeepGrid(Upper(dimensions, borderWidths), borderWidths, Upper(dimensions, borderWidths));
  }

  /** Every yielded coordinate is interior and every interior coordinate is yielded. */
  lemma YieldsExactlyInterior(dimensions: seq<nat>, borderWidths: seq<nat>, c: seq<int>)
    requires |dimensions| == |borderWidths|
    ensures c in Box(borderWidths, Upper(dimensions, borderWidths))
        <==> |c| == |dimensions| && forall i :: 0 <= i < |c| ==> borderWidths[i] <= c[i] < dimensions[i] + borderWidths[i]
  {
    BoxMember(borderWidths, Upper(dimensions, borderWidths), c);
  }

  /**
   * Exactly `Product(dimensions)` coordinates are yielded, strictly
   * increasing in row-major order (so without repeats), and none at all
   * when some axis has no interior.
   */
  lemma YieldCountAndOrder(dimensions: seq<nat>, borderWidths: seq<nat>)
    requires |dimensions| == |borderWidths|
    ensures |Box(borderWidths, Upper(dimensions, borderWidths))| == Product(dimensions)
    ensures StrictlyIncreasing(Box(borderWidths, Upper(dimensions, borderWidths)))
    ensures (exists i :: 0 <= i < |dimensions| && dimensions[i] == 0)
        ==> Box(borderWidths, Upper(dimensions, borderWidths)) == []
  {
    BoxLength(borderWidths, Upper(dimensions, borderWidths));
    assert Sizes(borderWidths, Upper(dimensions, borderWidths)) == dimensions;
    BoxIncreasing(borderWidths, Upper(dimensions, borderWidths));
    if i :| 0 <= i < |dimensions| && dimensions[i] == 0 {
      ProductZero(dimensions, i);
    }
  }

  class PositionIterator {
    const dimensions: seq<nat>
    const borderWidths: seq<nat>
    const index: NdIndexIterator

    ghost predicate Valid()
      reads this, index
    {
      |dimensions| == |borderWidths| &&
      index.shape == Upper(dimensions, borderWidths) &&
      index.Valid()
    }

    /** The coordinates still to be yielded. */
    ghost function Pending(): seq<seq<int>>
      reads this, index
      requires Valid()
    {
      KeepInBox(Grid(index.shape)[index.consumed..], borderWidths, Upper(dimensions, borderWidths))
    }

    constructor (dimensions: seq<nat>, borderWidths: seq<nat>)
      requires |dimensions| == |borderWidths|
      ensures Valid() && fresh(index)
      ensures this.dimensions == dimensions && this.borderWidths == borderWidths
      ensures Pending() == Box(borderWidths, Upper(dimensions, borderWidths))
    {
      this.dimensions := dimensions;
      this.borderWidths := borderWidths;
      index := new NdIndexIterator(Upper(dimensions, borderWidths));
      new;
      Yields(dimensions, borderWidths);
    }

    /**
     * `__next__`. The source ends with a `return coordinate` after its
     * `while True` loop; that statement is unreachable, and here the loop
     * (which has no `break`) is the last statement: it is left only by
     * returning a coordinate or `None` (StopIteration).
     */
    method Next() returns (position: Option<seq<int>>)
      requires Valid()
      modifies index
      ensures Valid()
      ensures old(Pending()) == [] ==> position == None && Pending() == []
      ensures old(Pending()) != [] ==> position == Some(old(Pending())[0]) && Pending() == old(Pending())[1..]
    {
      while true
        invariant Valid()
        invariant Pending() == old(Pending())
        decreases |Grid(index.shape)| - index.consumed
      {
        ghost var k := index.consumed;
        var coordinate := index.Next();
        if coordinate.None? {
          return None;
        }
        KeepSuffix(Grid(index.shape), k, borderWidths, Upper(dimensions, borderWidths));
        GridElement(index.shape, k);
        if Admits(coordinate.value, dimensions, borderWidths) {
          return coordinate;
        }
      }
    }
  }
}
