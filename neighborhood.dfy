/**
 * A neighbourhood is a boolean mask plus an offset: the mask is laid over
 * the grid at a cell's position plus the offset, and the cells under a true
 * entry influence the cell's next value.
 */
module Neighborhood {
  import opened NdIndex

  /** A boolean N-dimensional array, stored flat in row-major order. */
  datatype Mask = Mask(shape: seq<nat>, bits: seq<bool>) {
    ghost predicate Valid() { |bits| == Product(shape) }

    /** The entry at coordinate `k`. */
    function At(k: seq<int>): bool
      requires Valid() && InGrid(k, shape)
    {
      FlattenIndex(shape, k);
      GridLength(shape);
      bits[Flatten(shape, k)]
    }
  }

  datatype Neighborhood = Neighborhood(mask: Mask, offset: seq<int>)

  /** The coordinates of the mask's true entries, in row-major order. */
  function Selected(mask: Mask): (r: seq<seq<int>>)
    requires mask.Valid()
    ensures |r| == CountTrue(mask.bits)
    ensures forall i :: 0 <= i < |r| ==> InGrid(r[i], mask.shape)
  {
    CompressLength(Grid(mask.shape), mask.bits);
    GridElements(mask.shape);
    CompressInGrid(Grid(mask.shape), mask.bits, mask.shape);
    Compress(Grid(mask.shape), mask.bits)
  }

  /**
   * `Selected(mask)` lists exactly the in-shape coordinates whose mask entry
   * is true, each once, in strictly increasing row-major order, and there
   * are as many of them as true entries.
   */
  lemma SelectedSpec(mask: Mask, k: seq<int>)
    requires mask.Valid()
    ensures |Selected(mask)| == CountTrue(mask.bits)
    ensures StrictlyIncreasing(Selected(mask))
    ensures k in Selected(mask) <==> InGrid(k, mask.shape) && mask.At(k)
  {
    var g := Grid(mask.shape);
    GridLength(mask.shape);
    CompressLength(g, mask.bits);
    BoxIncreasing(Zeros(|mask.shape|), mask.shape);
    CompressIncreasing(g, mask.bits);
    GridMember(mask.shape, k);
    if InGrid(k, mask.shape) {
      FlattenIndex(mask.shape, k);
      CompressMember(g, mask.bits, Flatten(mask.shape, k));
    }
  }
}
