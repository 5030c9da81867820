/**
 * Properties of `FiniteNGridTopology` that span several calls: a write is
 * invisible to readers until the boards are flipped, and visible right
 * after one flip.
 */
module TopologyProperties {
  import opened Wrappers
  import opened Errors
  import opened NdIndex
  import opened Topology

  /**
   * Writing a cell of the writing board leaves what `get_cell` reports for
   * the reading board unchanged, since the two boards differ whenever there
   * are at least two of them.
   */
  method WriteIsolation(t: FiniteNGridTopology, position: seq<int>, state: int, attributes: Option<seq<int>>)
    returns (before: Result<seq<int>, Error>, after: Result<seq<int>, Error>)
    requires t.Valid() && t.memoryLength >= 2
    requires InGrid(position, t.dimensions) && AttributesFit(attributes, t.attributesNumber)
    modifies t.cells
    ensures t.Valid()
    ensures before.Ok? && after == before
  {
    before := t.GetCell(position, None);
    LagDistinct(t.writingBoard, t.memoryLength);
    var r := t.SetCellValue(position, state, attributes, None);
    after := t.GetCell(position, None);
    assert after.value == before.value;
  }

  /**
   * Writing a cell and flipping once makes `get_cell` report exactly the
   * cell written; with no boards the write, the flip and the read all fail.
   */
  method WriteFlipRead(t: FiniteNGridTopology, position: seq<int>, state: int, attributes: Option<seq<int>>)
    returns (read: Result<seq<int>, Error>)
    requires t.Valid()
    requires InGrid(position, t.dimensions) && AttributesFit(attributes, t.attributesNumber)
    modifies t.cells, t`writingBoard, t`readingBoard
    ensures t.Valid()
    ensures t.memoryLength == 0 ==> read == Err(OutOfRange)
    ensures t.memoryLength >= 1 ==> read == Ok(CellValues(state, attributes))
  {
    var r := t.SetCellValue(position, state, attributes, None);
    var flipped := t.Flip();
    read := t.GetCell(position, None);
    if t.memoryLength == 0 {
      return;
    }
    var v := CellValues(state, attributes);
    assert |read.value| == |v|;
    assert forall l :: 0 <= l < |v| ==> read.value[l] == v[l];
    assert read.value == v;
  }
}
