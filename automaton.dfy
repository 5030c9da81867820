/**
 * The automaton: a rule (a neighbourhood plus a transition function) applied
 * to every interior cell of a topology, one step per board flip.  Each step
 * reads the board written by the previous step and writes the next board.
 */
module Automaton {
  import opened Wrappers
  import opened Errors
  import opened NdIndex
  import opened Neighborhood
  import opened Topology
  import PositionIterator

  /**
   * A rule: its neighbourhood (`get_neighborhood`) and its transition
   * (`apply_rule`), which maps the states and attributes under the mask to a
   * new state and, possibly, new attributes, or to the error it raises.
   */
  datatype Rule = Rule(
    neighborhood: Neighborhood,
    apply: (seq<int>, Option<seq<seq<int>>>) -> Result<(int, Option<seq<int>>), Error>)

  /** `position[i] + offset[i]` over the position's axes; an offset shorter than the position is an index error. */
  function MaskPosition(position: seq<int>, offset: seq<int>): (r: Result<seq<int>, Error>)
    ensures r.Ok? <==> |offset| >= |position|
    ensures r.Err? ==> r.error == OutOfRange
    ensures r.Ok? ==> |r.value| == |position|
    ensures r.Ok? ==> forall i :: 0 <= i < |position| ==> r.value[i] == position[i] + offset[i]
  {
    if |offset| < |position| then Err(OutOfRange)
    else Ok(seq(|position|, i requires 0 <= i < |position| => position[i] + offset[i]))
  }

  /**
   * The column `[state, *attributes]` a step writes at interior `position`:
   * the rule applied to what the mask covers on the board `read`, laid at
   * the position plus the offset.  Fails when the mask does not fit there,
   * when the rule fails, or when the rule's attributes do not fit the cell.
   */
  function CellUpdate(read: Board, dims: seq<nat>, a: nat, rule: Rule, position: seq<int>): (r: Result<seq<int>, Error>)
    requires BoardShaped(read, dims, a) && rule.neighborhood.mask.Valid()
    ensures r.Ok? ==> |r.value| == a + 1
  {
    match MaskPosition(position, rule.neighborhood.offset)
    case Err(e) => Err(e)
    case Ok(at) =>
      match BoardUnderMask(read, dims, a, at, rule.neighborhood.mask)
      case Err(e) => Err(e)
      case Ok(v) =>
        match rule.apply(v.states, v.attributes)
        case Err(e) => Err(e)
        case Ok(out) =>
          if AttributesFit(out.1, a) then Ok(CellValues(out.0, out.1)) else Err(InvalidParameter)
  }

  /** A step's update of a cell depends on nothing but the cells its mask covers on the read board. */
  lemma CellUpdateLocal(r1: Board, r2: Board, dims: seq<nat>, a: nat, rule: Rule, position: seq<int>)
    requires BoardShaped(r1, dims, a) && BoardShaped(r2, dims, a) && rule.neighborhood.mask.Valid()
    requires MaskPosition(position, rule.neighborhood.offset).Ok?
    requires var at := MaskPosition(position, rule.neighborhood.offset).value;
      |at| == |rule.neighborhood.mask.shape| ==>
      forall l, i :: 0 <= l <= a && 0 <= i < |Selected(rule.neighborhood.mask)| ==>
        LayerAt(r1[l], dims, Add(at, Selected(rule.neighborhood.mask)[i]))
          == LayerAt(r2[l], dims, Add(at, Selected(rule.neighborhood.mask)[i]))
    ensures CellUpdate(r1, dims, a, rule, position) == CellUpdate(r2, dims, a, rule, position)
  {
    BoardUnderMaskLocal(r1, r2, dims, a, MaskPosition(position, rule.neighborhood.offset).value, rule.neighborhood.mask);
  }

  class Automaton {
    const rule: Rule
    const topology: FiniteNGridTopology
    const name: string
    /** The neighbourhood's mask and offset, fetched once at construction. */
    const mask: Mask
    const offset: seq<int>

    ghost predicate Valid()
      reads this, topology
    {
      topology.Valid() && mask.Valid() &&
      mask == rule.neighborhood.mask && offset == rule.neighborhood.offset
    }

    constructor(rule: Rule, topology: FiniteNGridTopology, name: string)
      requires topology.Valid() && rule.neighborhood.mask.Valid()
      ensures Valid()
      ensures this.rule == rule && this.topology == topology && this.name == name
    {
      this.rule := rule;
      this.topology := topology;
      this.name := name;
      this.mask := rule.neighborhood.mask;
      this.offset := rule.neighborhood.offset;
    }

    /** The update a step computes for `position` from the board `read`. */
    function Update(read: Board, position: seq<int>): (r: Result<seq<int>, Error>)
      requires rule.neighborhood.mask.Valid() && BoardShaped(read, topology.dimensions, topology.attributesNumber)
    {
      CellUpdate(read, topology.dimensions, topology.attributesNumber, rule, position)
    }

    /**
     * `next_step`: flip the boards, then for every interior position, in the
     * iterator's order, apply the rule to what the mask covers on the reading
     * board and write the result at the position on the writing board.  The
     * reading board is the one the previous step wrote; with two or more
     * boards the step's writes never reach it, so every interior cell gets
     * exactly the update computed from that board, whatever the order.
     * With no boards the flip fails and nothing else happens.
     */
    method NextStep() returns (r: Outcome<Error>)
      requires Valid()
      modifies topology`writingBoard, topology`readingBoard, topology.cells
      ensures Valid()
      ensures topology.memoryLength == 0 ==>
        r == Fail(DivisionByZero) &&
        topology.writingBoard == old(topology.writingBoard) + 1 && topology.readingBoard == old(topology.readingBoard)
      ensures topology.memoryLength >= 1 ==>
        topology.readingBoard == old(topology.writingBoard) &&
        topology.writingBoard == Advance(old(topology.writingBoard), topology.memoryLength)
      ensures forall b :: 0 <= b < topology.memoryLength && b != topology.writingBoard ==>
                topology.Board(b) == old(topology.Board(b))
      ensures var w := topology.writingBoard;
        forall q :: q !in Box(topology.frontiersWidth, Sub(topology.dimensions, topology.frontiersWidth)) ==>
          topology.Column(w, q) == old(topology.Column(w, q))
      ensures topology.memoryLength >= 2 ==>
        var read := old(topology.Board(topology.writingBoard));
        (r.Pass? <==>
          forall p :: p in Box(topology.frontiersWidth, Sub(topology.dimensions, topology.frontiersWidth)) ==>
            Update(read, p).Ok?)
      ensures topology.memoryLength >= 2 && r.Pass? ==>
        var read := old(topology.Board(topology.writingBoard));
        forall q :: q in Box(topology.frontiersWidth, Sub(topology.dimensions, topology.frontiersWidth)) ==>
          topology.Column(topology.writingBoard, q) == Update(read, q).value
    {
      var flipped := topology.Flip();
      if flipped.Fail? {
        return flipped;
      }
      var it := topology.Iter();
      forall q | q in Box(topology.frontiersWidth, Sub(topology.dimensions, topology.frontiersWidth))
        ensures InGrid(q, topology.dimensions)
      {
        InteriorInGrid(q);
      }
      r := Sweep(it, Box(topology.frontiersWidth, Sub(topology.dimensions, topology.frontiersWidth)));
    }

    /**
     * `next_step` as written: the flip happens, then `for position in
     * self.topology` calls `__iter__`, which raises TypeError (see
     * `IterAsWritten`), so no cell is ever updated.
     */
    method NextStepAsWritten() returns (r: Outcome<Error>)
      requires Valid()
      modifies topology`writingBoard, topology`readingBoard
      ensures Valid()
      ensures r == Fail(if topology.memoryLength == 0 then DivisionByZero else InvalidParameter)
      ensures topology.memoryLength >= 1 ==>
        topology.readingBoard == old(topology.writingBoard) &&
        topology.writingBoard == Advance(old(topology.writingBoard), topology.memoryLength)
    {
      var flipped := topology.Flip();
      if flipped.Fail? {
        return flipped;
      }
      var it := topology.IterAsWritten();
      r := Fail(it.error);
    }

    /**
     * The loop of `next_step`: every position the iterator has left is
     * visited in turn until one fails.  While the reading and writing boards
     * differ, the reading board stays as it was and every interior cell
     * gets the update computed from it.
     */
    method Sweep(it: PositionIterator.NGridIterator, ghost interior: seq<seq<int>>) returns (r: Outcome<Error>)
      requires Valid() && topology.memoryLength >= 1 && it.Valid()
      requires it.dimensions == topology.dimensions && it.frontiersWidth == topology.frontiersWidth
      requires it.Pending() == interior && forall q :: q in interior ==> InGrid(q, topology.dimensions)
      modifies topology.cells, it.index
      ensures Valid()
      ensures forall b :: 0 <= b < topology.memoryLength && b != topology.writingBoard ==>
                topology.Board(b) == old(topology.Board(b))
      ensures var w := topology.writingBoard;
        forall q :: q !in interior ==> topology.Column(w, q) == old(topology.Column(w, q))
      ensures topology.readingBoard != topology.writingBoard ==>
        var read := old(topology.Board(topology.readingBoard));
        (r.Pass? <==> forall p :: p in interior ==> Update(read, p).Ok?)
      ensures topology.readingBoard != topology.writingBoard && r.Pass? ==>
        var read := old(topology.Board(topology.readingBoard));
        forall q :: q in interior ==> topology.Column(topology.writingBoard, q) == Update(read, q).value
    {
      ghost var w := topology.writingBoard;
      ghost var distinct := topology.readingBoard != w;
      ghost var read := topology.Board(topology.readingBoard);
      ghost var done: seq<seq<int>> := [];
      while true
        invariant Valid() && topology.memoryLength >= 1 && it.Valid()
        invariant it.dimensions == topology.dimensions && it.frontiersWidth == topology.frontiersWidth
        invariant done + it.Pending() == interior
        invariant forall q :: q in done ==> q in interior
        invariant forall b :: 0 <= b < topology.memoryLength && b != w ==> topology.Board(b) == old(topology.Board(b))
        invariant forall q :: q !in done ==> topology.Column(w, q) == old(topology.Column(w, q))
        invariant distinct ==> forall q :: q in done ==> Update(read, q).Ok? && topology.Column(w, q) == Update(read, q).value
        decreases |it.Pending()|
      {
        ghost var pending := it.Pending();
        var next := it.Next();
        if next.None? {
          assert done == interior;
          return Pass;
        }
        var p := next.value;
        AppendHead(done, pending);
        label pre:
        var written := Visit(p);
        forall b | 0 <= b < topology.memoryLength && b != w
          ensures topology.Board(b) == old@pre(topology.Board(b))
        {
          topology.BoardUnchanged@pre(b);
        }
        if written.Fail? {
          return written;
        }
        forall q | q !in done + [p]
          ensures topology.Column(w, q) == old(topology.Column(w, q))
        {
          assert topology.Column(w, q) == old@pre(topology.Column(w, q));
        }
        forall q | distinct && q in done + [p]
          ensures Update(read, q).Ok? && topology.Column(w, q) == Update(read, q).value
        {
          if q != p {
            assert topology.Column(w, q) == old@pre(topology.Column(w, q));
          }
        }
        done := done + [p];
      }
    }

    /**
     * One iteration of the step: the rule applied at interior position `p`
     * from the reading board as it is, its result written at `p` on the
     * writing board and nowhere else.
     */
    method Visit(p: seq<int>) returns (r: Outcome<Error>)
      requires Valid() && topology.memoryLength >= 1 && InGrid(p, topology.dimensions)
      modifies topology.cells
      ensures Valid()
      ensures var u := Update(old(topology.Board(topology.readingBoard)), p);
        (r.Pass? <==> u.Ok?) && (r.Fail? ==> r.error == u.error)
      ensures forall b, l, f ::
                0 <= b < topology.cells.Length0 && 0 <= l < topology.cells.Length1 && 0 <= f < topology.cells.Length2 &&
                b != topology.writingBoard
                ==> topology.cells[b, l, f] == old(topology.cells[b, l, f])
      ensures var w := topology.writingBoard;
        forall q ::
          topology.Column(w, q) ==
            if r.Pass? && q == p
            then Update(old(topology.Board(topology.readingBoard)), p).value
            else old(topology.Column(w, q))
    {
      var at := MaskPosition(p, offset);
      if at.Err? {
        return Fail(at.error);
      }
      var v := topology.ApplyMask(at.value, mask);
      if v.Err? {
        return Fail(v.error);
      }
      var applied := rule.apply(v.value.states, v.value.attributes);
      if applied.Err? {
        return Fail(applied.error);
      }
      var out := applied.value;
      label before:
      r := topology.SetCellValue(p, out.0, out.1, None);
      ghost var w := topology.writingBoard;
      forall q
        ensures topology.Column(w, q) ==
          if r.Pass? && q == p then CellValues(out.0, out.1) else old@before(topology.Column(w, q))
      {
        if r.Pass? && q == p {
          assert |CellValues(out.0, out.1)| == topology.attributesNumber + 1;
        }
      }
    }

    /** Moving the head of `pending` to the end of `done` keeps their concatenation. */
    static lemma AppendHead<T>(done: seq<T>, pending: seq<T>)
      requires pending != []
      ensures pending[0] in done + pending
      ensures (done + [pending[0]]) + pending[1..] == done + pending
    {
      assert (done + pending)[|done|] == pending[0];
    }

    /** Interior positions lie in the grid. */
    lemma InteriorInGrid(p: seq<int>)
      requires Valid() && p in Box(topology.frontiersWidth, Sub(topology.dimensions, topology.frontiersWidth))
      ensures InGrid(p, topology.dimensions)
    {
      BoxMember(topology.frontiersWidth, Sub(topology.dimensions, topology.frontiersWidth), p);
    }
  }
}
