/**
 * Two-dimensional rules: the Life-like birth/survival rule in B/S notation
 * over the inclusive Moore neighbourhood.
 */
module TwoDimensionalRules {
  import opened Wrappers
  import opened NdIndex
  import opened Neighborhood
  import opened Errors
  import opened Topology
  import Automaton

  /** The B/S rule: births on the counts in `b`, survivals on the counts in `s`. */
  datatype BSNotationRule = BSNotationRule(b: seq<int>, s: seq<int>, radius: nat, neighborhood: Neighborhood)

  /**
   * The inclusive Moore neighbourhood of radius `r`: the whole square of
   * side `2r + 1` around the cell, the cell itself included, laid with its
   * corner at offset `(-r, -r)`.
   */
  function MooreNeighborhood(radius: nat): (n: Neighborhood)
    ensures n.mask.Valid()
    ensures n.mask.shape == [2 * radius + 1, 2 * radius + 1]
    ensures n.offset == [-(radius as int), -(radius as int)]
  {
    var side := 2 * radius + 1;
    Neighborhood(Mask([side, side], seq(Product([side, side]), _ => true)), [-(radius as int), -(radius as int)])
  }

  lemma SquareProduct(side: nat)
    ensures Product([side, side]) == side * side
  {
    assert [side, side][1..] == [side];
    assert [side][1..] == [];
    assert Product([side]) == side * Product([]) == side;
  }

  lemma SquareFlatten(side: nat, x: int, y: int)
    ensures Flatten([side, side], [x, y]) == x * side + y
  {
    assert [side, side][1..] == [side];
    assert [x, y][1..] == [y];
    assert [side][1..] == [];
    assert [y][1..] == [];
    assert Product([side]) == side * Product([]) == side;
    assert Flatten([side], [y]) == y * Product([]) + Flatten([], []) == y;
  }

  /** The middle index of a `(2r + 1)`-square, row-major, is row `r`, column `r`. */
  lemma SquareMiddle(radius: nat)
    ensures (2 * radius + 1) * (2 * radius + 1) / 2 == radius * (2 * radius + 1) + radius
  {
    var side := 2 * radius + 1;
    var x := radius * side + radius;
    assert side * side == 2 * radius * side + side;
    assert side * side == 2 * x + 1;
  }

  /**
   * The Moore mask selects every coordinate of its square, `(2r + 1)^2` of
   * them, and the middle one (index `size // 2`) is `(r, r)`, which the
   * offset `(-r, -r)` carries back onto the cell itself.
   */
  lemma MooreCentreIsCell(radius: nat)
    ensures var n := MooreNeighborhood(radius);
      Selected(n.mask) == Grid(n.mask.shape) &&
      |Selected(n.mask)| == (2 * radius + 1) * (2 * radius + 1) &&
      Selected(n.mask)[|Selected(n.mask)| / 2] == [radius as int, radius as int] &&
      Add(n.offset, [radius as int, radius as int]) == [0, 0]
  {
    var n := MooreNeighborhood(radius);
    var side := 2 * radius + 1;
    var g := Grid([side, side]);
    CompressAll(g, n.mask.bits);
    SquareProduct(side);
    var c := [radius as int, radius as int];
    assert InGrid(c, [side, side]);
    FlattenIndex([side, side], c);
    SquareFlatten(side, radius, radius);
    SquareMiddle(radius);
    assert g[|g| / 2] == c;
  }

  /** `__init__`: the neighbourhood is the inclusive Moore neighbourhood of the given radius. */
  function NewBSNotationRule(b: seq<int>, s: seq<int>, radius: nat): (rule: BSNotationRule)
    ensures rule.b == b && rule.s == s && rule.radius == radius
    ensures rule.neighborhood == MooreNeighborhood(radius)
  {
    BSNotationRule(b, s, radius, MooreNeighborhood(radius))
  }

  /** `get_neighborhood`. */
  function GetNeighborhood(rule: BSNotationRule): Neighborhood
  {
    rule.neighborhood
  }

  /** `np.sum` over a flat array. */
  function Sum(xs: seq<int>): int
  {
    if xs == [] then 0 else xs[0] + Sum(xs[1..])
  }

  /** Zeroing one entry removes exactly that entry from the sum. */
  lemma {:induction false} SumZeroAt(xs: seq<int>, c: nat)
    requires c < |xs|
    ensures Sum(xs[c := 0]) == Sum(xs) - xs[c]
  {
    if c > 0 {
      SumZeroAt(xs[1..], c - 1);
      assert xs[c := 0][1..] == xs[1..][c - 1 := 0];
    } else {
      assert xs[c := 0][1..] == xs[1..];
    }
  }

  /** The number of live neighbours: the sum with the centre entry `size // 2` set to zero. */
  function NeighbourCount(states: seq<int>): (count: int)
    requires |states| > 0
    ensures count == Sum(states) - states[|states| / 2]
  {
    SumZeroAt(states, |states| / 2);
    Sum(states[|states| / 2 := 0])
  }

  /**
   * The new state, assigned as `apply_rule` assigns it: 0, then for a live
   * centre 0 when `S` is empty and 1 when the count is in `S`, and for a dead
   * centre 1 when `B` is empty and 1 when the count is in `B`.
   */
  function BSNext(b: seq<int>, s: seq<int>, states: seq<int>): (next: int)
    requires |states| > 0
    ensures next == 0 || next == 1
    ensures states[|states| / 2] == 1 ==> (next == 1 <==> NeighbourCount(states) in s)
    ensures states[|states| / 2] == 0 ==> (next == 1 <==> NeighbourCount(states) in b || b == [])
    ensures states[|states| / 2] != 0 && states[|states| / 2] != 1 ==> next == 0
  {
    var centre := states[|states| / 2];
    var alive := NeighbourCount(states);
    var n0 := 0;
    var n1 := if centre == 1 then
        var n := if s == [] then 0 else n0;
        if alive in s then 1 else n
      else n0;
    var n2 := if centre == 0 then
        var n := if b == [] then 1 else n1;
        if alive in b then 1 else n
      else n1;
    n2
  }

  /**
   * `apply_rule`: reads the centre, zeroes it in the caller's array, counts
   * the live cells left and returns the new state with no attributes.  An
   * empty array has no centre: reading index 0 is an index error.
   */
  method ApplyRule(rule: BSNotationRule, cellStates: array<int>) returns (r: Result<(int, Option<seq<int>>), Error>)
    modifies cellStates
    ensures cellStates.Length == 0 ==> r == Err(OutOfRange)
    ensures cellStates.Length > 0 ==>
      cellStates[..] == old(cellStates[..])[cellStates.Length / 2 := 0] &&
      r == Ok((BSNext(rule.b, rule.s, old(cellStates[..])), None))
  {
    if cellStates.Length == 0 {
      return Err(OutOfRange);
    }
    var centre := cellStates.Length / 2;
    var current := cellStates[centre];
    cellStates[centre] := 0;
    var alive := Sum(cellStates[..]);
    var state := 0;
    if current == 1 {
      if rule.s == [] {
        state := 0;
      }
      if alive in rule.s {
        state := 1;
      }
    }
    if current == 0 {
      if rule.b == [] {
        state := 1;
      }
      if alive in rule.b {
        state := 1;
      }
    }
    r := Ok((state, None));
  }

  /**
   * The rule as the automaton applies it: states in, the new state and no
   * attributes out; no states at all is the index error `apply_rule` raises.
   */
  function AsRule(rule: BSNotationRule): (r: Automaton.Rule)
    ensures r.neighborhood == rule.neighborhood
    ensures forall states, attributes ::
      r.apply(states, attributes) == if |states| == 0 then Err(OutOfRange) else Ok((BSNext(rule.b, rule.s, states), None))
  {
    Automaton.Rule(rule.neighborhood, (states: seq<int>, attributes: Option<seq<seq<int>>>) =>
      if |states| == 0 then Err(OutOfRange) else Ok((BSNext(rule.b, rule.s, states), None)))
  }

  lemma MooreCentre(radius: nat)
    ensures var sel := Selected(MooreNeighborhood(radius).mask);
      |sel| > 0 && sel[|sel| / 2] == [radius as int, radius as int]
  {
    MooreCentreIsCell(radius);
    var sel := Selected(MooreNeighborhood(radius).mask);
    var side := 2 * radius + 1;
    assert |sel| == side * side;
    assert side * side >= side;
  }

  /**
   * What the Moore mask reads at `at` on a two-dimensional layer is the
   * square around `at + (r, r)`, and its middle entry is that cell.
   */
  lemma MooreStates(layer: seq<int>, dims: seq<nat>, radius: nat, at: seq<int>, p: seq<int>)
    requires |layer| == Product(dims) && |dims| == 2 && |p| == 2
    requires at == [p[0] - radius, p[1] - radius]
    requires BlockFits(dims, at, MooreNeighborhood(radius).mask.shape)
    ensures var states := ReadUnderMask(layer, dims, at, MooreNeighborhood(radius).mask);
      |states| > 0 && states[|states| / 2] == LayerAt(layer, dims, p)
  {
    var mask := MooreNeighborhood(radius).mask;
    var states := ReadUnderMask(layer, dims, at, mask);
    var sel := Selected(mask);
    MooreCentre(radius);
    assert |states| == |sel|;
    var c := |sel| / 2;
    var centre := [radius as int, radius as int];
    assert sel[c] == centre;
    assert states[c] == LayerAt(layer, dims, Add(at, centre));
    var q := Add(at, centre);
    assert q[0] == p[0] && q[1] == p[1];
    assert q == p;
  }

  /**
   * One automaton step of a B/S rule on a two-dimensional grid of plain
   * states: the update at `p` succeeds exactly when the `(2r + 1)`-square
   * around `p` lies inside the grid, and then writes the B/S successor of
   * the states the square covers, row by row, whose middle entry is the
   * state of `p` itself.
   */
  lemma BSCellUpdate(b: seq<int>, s: seq<int>, radius: nat, read: Board, dims: seq<nat>, p: seq<int>)
    requires BoardShaped(read, dims, 0) && |dims| == 2 && |p| == 2
    ensures var at := [p[0] - radius, p[1] - radius];
      var side := 2 * radius + 1;
      BlockFits(dims, at, [side, side]) ==> |ReadUnderMask(read[0], dims, at, MooreNeighborhood(radius).mask)| > 0
    ensures var at := [p[0] - radius, p[1] - radius];
      var side := 2 * radius + 1;
      var states := if BlockFits(dims, at, [side, side]) then ReadUnderMask(read[0], dims, at, MooreNeighborhood(radius).mask) else [];
      Automaton.CellUpdate(read, dims, 0, AsRule(NewBSNotationRule(b, s, radius)), p)
        == if BlockFits(dims, at, [side, side]) then Ok([BSNext(b, s, states)]) else Err(OutOfRange)
  {
    var rule := AsRule(NewBSNotationRule(b, s, radius));
    var n := MooreNeighborhood(radius);
    var at := [p[0] - radius, p[1] - radius];
    assert rule.neighborhood == n;
    var mp := Automaton.MaskPosition(p, n.offset);
    assert mp.value == at;
    var under := BoardUnderMask(read, dims, 0, at, n.mask);
    if under.Ok? {
      MooreStates(read[0], dims, radius, at, p);
      var states := ReadUnderMask(read[0], dims, at, n.mask);
      assert under.value == MaskValues(states, None);
      var out := rule.apply(states, None);
      assert out == Ok((BSNext(b, s, states), None));
    }
  }
}
