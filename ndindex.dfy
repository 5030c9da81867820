/**
 * A model of the part of numpy the grid engine leans on: shapes, the
 * row-major (C order) enumeration of a box of coordinates that
 * `np.ndindex` produces, the flat index of a coordinate in a C-ordered
 * array, and selection by a boolean mask.
 */
module NdIndex {
  import opened Wrappers

  /** Number of cells of a grid with the given extent on each axis. */
  function Product(dims: seq<nat>): nat
    decreases |dims|
  {
    if |dims| == 0 then 1 else dims[0] * Product(dims[1..])
  }

  function Zeros(n: nat): (z: seq<int>)
    ensures |z| == n
    ensures forall i :: 0 <= i < n ==> z[i] == 0
  {
    seq(n, _ => 0)
  }

  /** Element-wise sum of two vectors of the same length. */
  function Add(a: seq<int>, b: seq<int>): (r: seq<int>)
    requires |a| == |b|
    ensures |r| == |a|
    ensures forall i :: 0 <= i < |a| ==> r[i] == a[i] + b[i]
  {
    seq(|a|, i requires 0 <= i < |a| => a[i] + b[i])
  }

  /** Element-wise difference of two vectors of the same length. */
  function Sub(a: seq<int>, b: seq<int>): (r: seq<int>)
    requires |a| == |b|
    ensures |r| == |a|
    ensures forall i :: 0 <= i < |a| ==> r[i] == a[i] - b[i]
  {
    seq(|a|, i requires 0 <= i < |a| => a[i] - b[i])
  }

  function Max(a: int, b: int): int { if a < b then b else a }

  function Min(a: int, b: int): int { if a < b then a else b }

  function MaxSeq(a: seq<int>, b: seq<int>): (r: seq<int>)
    requires |a| == |b|
    ensures |r| == |a|
    ensures forall i :: 0 <= i < |a| ==> r[i] == Max(a[i], b[i])
  {
    seq(|a|, i requires 0 <= i < |a| => Max(a[i], b[i]))
  }

  function MinSeq(a: seq<int>, b: seq<int>): (r: seq<int>)
    requires |a| == |b|
    ensures |r| == |a|
    ensures forall i :: 0 <= i < |a| ==> r[i] == Min(a[i], b[i])
  {
    seq(|a|, i requires 0 <= i < |a| => Min(a[i], b[i]))
  }

  /** Number of integers in the half-open range [lo, hi). */
  function Span(lo: int, hi: int): nat { if lo < hi then hi - lo else 0 }

  /** Extent on each axis of the half-open box [lo, hi). */
  function Sizes(lo: seq<int>, hi: seq<int>): (r: seq<nat>)
    requires |lo| == |hi|
    ensures |r| == |lo|
    ensures forall i :: 0 <= i < |lo| ==> r[i] == Span(lo[i], hi[i])
  {
    seq(|lo|, i requires 0 <= i < |lo| => Span(lo[i], hi[i]))
  }

  /** `c` lies in the half-open box [lo, hi) on every axis. */
  predicate InBox(c: seq<int>, lo: seq<int>, hi: seq<int>)
    requires |lo| == |hi|
  {
    |c| == |lo| && forall i :: 0 <= i < |c| ==> lo[i] <= c[i] < hi[i]
  }

  /** `c` is a valid coordinate of a grid of shape `dims`. */
  predicate InGrid(c: seq<int>, dims: seq<nat>)
  {
    |c| == |dims| && forall i :: 0 <= i < |c| ==> 0 <= c[i] < dims[i]
  }

  /** Every coordinate of `cs` with `x` put in front. */
  function Cons(x: int, cs: seq<seq<int>>): (r: seq<seq<int>>)
    ensures |r| == |cs|
    ensures forall k :: 0 <= k < |cs| ==> r[k] == [x] + cs[k]
  {
    seq(|cs|, k requires 0 <= k < |cs| => [x] + cs[k])
  }

  /** The coordinates `[i] + c` for i in [a, b) (outer) and c in `inner` (inner). */
  function Layers(a: int, b: int, inner: seq<seq<int>>): seq<seq<int>>
    decreases b - a
  {
    if a >= b then [] else Cons(a, inner) + Layers(a + 1, b, inner)
  }

  /**
   * The coordinates of the box [lo, hi) in row-major order: the last axis
   * varies fastest. An axis with hi <= lo makes the box empty.
   */
  function Box(lo: seq<int>, hi: seq<int>): seq<seq<int>>
    requires |lo| == |hi|
    decreases |lo|
  {
    if |lo| == 0 then [[]] else Layers(lo[0], hi[0], Box(lo[1..], hi[1..]))
  }

  /** Every coordinate of a grid of shape `dims`, in the order `np.ndindex(*dims)` yields them. */
  function Grid(dims: seq<nat>): (g: seq<seq<int>>)
    ensures |g| == Product(dims)
    ensures forall k :: 0 <= k < |g| ==> |g[k]| == |dims|
  {
    BoxLength(Zeros(|dims|), dims);
    assert Sizes(Zeros(|dims|), dims) == dims;
    BoxElementsLength(Zeros(|dims|), dims);
    Box(Zeros(|dims|), dims)
  }

  /** The flat (C order) index of coordinate `q` in an array of shape `dims`. */
  function Flatten(dims: seq<nat>, q: seq<int>): int
    requires |q| == |dims|
    decreases |dims|
  {
    if |dims| == 0 then 0 else q[0] * Product(dims[1..]) + Flatten(dims[1..], q[1..])
  }

  /** Strict lexicographic order on coordinates. */
  predicate LexLess(a: seq<int>, b: seq<int>)
    decreases |a|
  {
    |a| > 0 && |b| > 0 && (a[0] < b[0] || (a[0] == b[0] && LexLess(a[1..], b[1..])))
  }

  ghost predicate StrictlyIncreasing(cs: seq<seq<int>>)
  {
    forall j, k :: 0 <= j < k < |cs| ==> LexLess(cs[j], cs[k])
  }

  /** The coordinates of `cs` that lie in [lo, hi), in their original order. */
  function KeepInBox(cs: seq<seq<int>>, lo: seq<int>, hi: seq<int>): seq<seq<int>>
    requires |lo| == |hi|
  {
    if cs == [] then []
    else (if InBox(cs[0], lo, hi) then [cs[0]] else []) + KeepInBox(cs[1..], lo, hi)
  }

  /** Every coordinate of `cs` shifted by `lo`. */
  function Shift(lo: seq<int>, cs: seq<seq<int>>): (r: seq<seq<int>>)
    requires forall k :: 0 <= k < |cs| ==> |cs[k]| == |lo|
    ensures |r| == |cs|
    ensures forall k :: 0 <= k < |cs| ==> r[k] == Add(lo, cs[k])
  {
    seq(|cs|, k requires 0 <= k < |cs| => Add(lo, cs[k]))
  }

  /** numpy boolean-mask selection: the entries of `xs` whose bit is set, in order. */
  function Compress<T>(xs: seq<T>, bits: seq<bool>): seq<T>
    requires |xs| == |bits|
  {
    if xs == [] then [] else (if bits[0] then [xs[0]] else []) + Compress(xs[1..], bits[1..])
  }

  function CountTrue(bits: seq<bool>): nat
  {
    if bits == [] then 0 else (if bits[0] then 1 else 0) + CountTrue(bits[1..])
  }

  // ---------------------------------------------------------------------
  // Lengths

  lemma {:induction false} LayersLength(a: int, b: int, inner: seq<seq<int>>)
    ensures |Layers(a, b, inner)| == Span(a, b) * |inner|
    decreases b - a
  {
    if a < b {
      LayersLength(a + 1, b, inner);
      assert Span(a, b) * |inner| == |inner| + Span(a + 1, b) * |inner|;
    }
  }

  /** The box [lo, hi) has as many coordinates as the product of its extents. */
  lemma {:induction false} BoxLength(lo: seq<int>, hi: seq<int>)
    requires |lo| == |hi|
    ensures |Box(lo, hi)| == Product(Sizes(lo, hi))
    decreases |lo|
  {
    if |lo| > 0 {
      BoxLength(lo[1..], hi[1..]);
      LayersLength(lo[0], hi[0], Box(lo[1..], hi[1..]));
      assert Sizes(lo, hi)[1..] == Sizes(lo[1..], hi[1..]);
    }
  }

  lemma GridUnfold(dims: seq<nat>)
    requires |dims| > 0
    ensures Grid(dims) == Layers(0, dims[0], Grid(dims[1..]))
  {
    assert Zeros(|dims|)[1..] == Zeros(|dims| - 1);
  }

  /** `np.ndindex(*dims)` yields exactly `Product(dims)` coordinates. */
  lemma {:induction false} GridLength(dims: seq<nat>)
    ensures |Grid(dims)| == Product(dims)
    decreases |dims|
  {
    if |dims| > 0 {
      GridUnfold(dims);
      GridLength(dims[1..]);
      LayersLength(0, dims[0], Grid(dims[1..]));
    }
  }

  lemma {:induction false} ProductZero(dims: seq<nat>, i: nat)
    requires i < |dims| && dims[i] == 0
    ensures Product(dims) == 0
    decreases |dims|
  {
    if i > 0 {
      ProductZero(dims[1..], i - 1);
    }
  }

  // ---------------------------------------------------------------------
  // Membership

  lemma ConsMember(x: int, inner: seq<seq<int>>, c: seq<int>)
    ensures c in Cons(x, inner) <==> |c| > 0 && c[0] == x && c[1..] in inner
  {
    if c in Cons(x, inner) {
      var k :| 0 <= k < |inner| && Cons(x, inner)[k] == c;
      assert c[1..] == inner[k];
    }
    if |c| > 0 && c[0] == x && c[1..] in inner {
      var k :| 0 <= k < |inner| && inner[k] == c[1..];
      assert Cons(x, inner)[k] == c;
    }
  }

  lemma {:induction false} LayersMember(a: int, b: int, inner: seq<seq<int>>, c: seq<int>)
    ensures c in Layers(a, b, inner) <==> |c| > 0 && a <= c[0] < b && c[1..] in inner
    decreases b - a
  {
    if a < b {
      LayersMember(a + 1, b, inner, c);
      ConsMember(a, inner, c);
    }
  }

  lemma InBoxCons(c: seq<int>, lo: seq<int>, hi: seq<int>)
    requires |lo| == |hi| && |lo| > 0 && |c| > 0
    ensures InBox(c, lo, hi) <==> lo[0] <= c[0] < hi[0] && InBox(c[1..], lo[1..], hi[1..])
  {
    if lo[0] <= c[0] < hi[0] && InBox(c[1..], lo[1..], hi[1..]) {
      forall i | 0 <= i < |c| ensures lo[i] <= c[i] < hi[i] {
        if i > 0 { assert c[i] == c[1..][i - 1]; }
      }
    }
  }

  /** A coordinate is enumerated by `Box(lo, hi)` exactly when it lies in [lo, hi). */
  lemma {:induction false} BoxMember(lo: seq<int>, hi: seq<int>, c: seq<int>)
    requires |lo| == |hi|
    ensures c in Box(lo, hi) <==> InBox(c, lo, hi)
    decreases |lo|
  {
    if |lo| > 0 {
      LayersMember(lo[0], hi[0], Box(lo[1..], hi[1..]), c);
      if |c| > 0 {
        BoxMember(lo[1..], hi[1..], c[1..]);
        InBoxCons(c, lo, hi);
      }
    }
  }

  lemma BoxElementsLength(lo: seq<int>, hi: seq<int>)
    requires |lo| == |hi|
    ensures forall k :: 0 <= k < |Box(lo, hi)| ==> |Box(lo, hi)[k]| == |lo|
  {
    forall k | 0 <= k < |Box(lo, hi)| ensures |Box(lo, hi)[k]| == |lo| {
      BoxElement(lo, hi, k);
    }
  }

  lemma GridElements(dims: seq<nat>)
    ensures forall k :: 0 <= k < |Grid(dims)| ==> InGrid(Grid(dims)[k], dims)
  {
    forall k | 0 <= k < |Grid(dims)| ensures InGrid(Grid(dims)[k], dims) {
      BoxElement(Zeros(|dims|), dims, k);
    }
  }

  lemma BoxElement(lo: seq<int>, hi: seq<int>, k: int)
    requires |lo| == |hi| && 0 <= k < |Box(lo, hi)|
    ensures InBox(Box(lo, hi)[k], lo, hi)
  {
    BoxMember(lo, hi, Box(lo, hi)[k]);
  }

  lemma GridElement(dims: seq<nat>, k: int)
    requires 0 <= k < |Grid(dims)|
    ensures InGrid(Grid(dims)[k], dims)
  {
    BoxElement(Zeros(|dims|), dims, k);
  }

  /** Every coordinate of the grid is enumerated by `np.ndindex`. */
  lemma GridMember(dims: seq<nat>, c: seq<int>)
    ensures c in Grid(dims) <==> InGrid(c, dims)
  {
    BoxMember(Zeros(|dims|), dims, c);
  }

  // ---------------------------------------------------------------------
  // Row-major order and flat indices

  lemma MulStep(k: int, n: int)
    ensures (k + 1) * n == n + k * n
  {
  }

  lemma {:induction false} LayersIndex(a: int, b: int, inner: seq<seq<int>>, i: int, j: int)
    requires a <= i < b && 0 <= j < |inner|
    ensures 0 <= (i - a) * |inner| + j < |Layers(a, b, inner)|
    ensures Layers(a, b, inner)[(i - a) * |inner| + j] == [i] + inner[j]
    decreases i - a
  {
    var n := |inner|;
    var head := Cons(a, inner);
    var rest := Layers(a + 1, b, inner);
    assert Layers(a, b, inner) == head + rest;
    if i == a {
      assert (i - a) * n + j == j;
      assert (head + rest)[j] == head[j];
    } else {
      LayersIndex(a + 1, b, inner, i, j);
      var k := (i - (a + 1)) * n + j;
      MulStep(i - (a + 1), n);
      assert (i - a) * n + j == n + k;
      assert 0 <= k < |rest|;
      assert (head + rest)[n + k] == rest[k];
    }
  }

  /**
   * The flat index of an in-grid coordinate is a position of the row-major
   * enumeration, and that position holds the coordinate.
   */
  lemma {:induction false} FlattenIndex(dims: seq<nat>, q: seq<int>)
    requires InGrid(q, dims)
    ensures 0 <= Flatten(dims, q) < |Grid(dims)|
    ensures Grid(dims)[Flatten(dims, q)] == q
    decreases |dims|
  {
    if |dims| > 0 {
      var t := dims[1..];
      assert InGrid(q[1..], t) by {
        forall i | 0 <= i < |t| ensures 0 <= q[1..][i] < t[i] {
          assert q[1..][i] == q[i + 1];
        }
      }
      FlattenIndex(t, q[1..]);
      var k := Flatten(t, q[1..]);
      GridUnfold(dims);
      GridLength(t);
      assert Flatten(dims, q) == q[0] * |Grid(t)| + k;
      LayersIndex(0, dims[0], Grid(t), q[0], k);
      assert (q[0] - 0) * |Grid(t)| + k == Flatten(dims, q);
      assert Grid(dims)[Flatten(dims, q)] == [q[0]] + q[1..];
      HeadTail(q);
    }
  }

  lemma HeadTail(q: seq<int>)
    requires |q| > 0
    ensures [q[0]] + q[1..] == q
  {
  }

  lemma {:induction false} LexIrreflexive(a: seq<int>)
    ensures !LexLess(a, a)
    decreases |a|
  {
    if |a| > 0 {
      LexIrreflexive(a[1..]);
    }
  }

  lemma ConsIncreasing(x: int, inner: seq<seq<int>>)
    requires StrictlyIncreasing(inner)
    ensures StrictlyIncreasing(Cons(x, inner))
  {
    forall j, k | 0 <= j < k < |inner| ensures LexLess(Cons(x, inner)[j], Cons(x, inner)[k]) {
      assert ([x] + inner[j])[1..] == inner[j];
      assert ([x] + inner[k])[1..] == inner[k];
    }
  }

  lemma ConcatIncreasing(xs: seq<seq<int>>, ys: seq<seq<int>>)
    requires StrictlyIncreasing(xs) && StrictlyIncreasing(ys)
    requires forall u, v :: u in xs && v in ys ==> LexLess(u, v)
    ensures StrictlyIncreasing(xs + ys)
  {
    forall j, k | 0 <= j < k < |xs + ys| ensures LexLess((xs + ys)[j], (xs + ys)[k]) {
      if k < |xs| {
      } else if j >= |xs| {
        assert (xs + ys)[j] == ys[j - |xs|] && (xs + ys)[k] == ys[k - |xs|];
      } else {
        assert (xs + ys)[j] in xs && (xs + ys)[k] in ys;
      }
    }
  }

  lemma {:induction false} LayersIncreasing(a: int, b: int, inner: seq<seq<int>>)
    requires StrictlyIncreasing(inner)
    ensures StrictlyIncreasing(Layers(a, b, inner))
    decreases b - a
  {
    if a < b {
      LayersIncreasing(a + 1, b, inner);
      ConsIncreasing(a, inner);
      forall u, v | u in Cons(a, inner) && v in Layers(a + 1, b, inner) ensures LexLess(u, v) {
        ConsMember(a, inner, u);
        LayersMember(a + 1, b, inner, v);
      }
      ConcatIncreasing(Cons(a, inner), Layers(a + 1, b, inner));
    }
  }

  /** `Box` enumerates in strictly increasing row-major order, so no coordinate repeats. */
  lemma {:induction false} BoxIncreasing(lo: seq<int>, hi: seq<int>)
    requires |lo| == |hi|
    ensures StrictlyIncreasing(Box(lo, hi))
    decreases |lo|
  {
    if |lo| > 0 {
      BoxIncreasing(lo[1..], hi[1..]);
      LayersIncreasing(lo[0], hi[0], Box(lo[1..], hi[1..]));
    }
  }

  lemma IncreasingDistinct(cs: seq<seq<int>>, j: int, k: int)
    requires StrictlyIncreasing(cs)
    requires 0 <= j < |cs| && 0 <= k < |cs| && j != k
    ensures cs[j] != cs[k]
  {
    if j < k {
      LexIrreflexive(cs[j]);
    } else {
      LexIrreflexive(cs[k]);
    }
  }

  /** The flat index of the f-th enumerated coordinate is f. */
  lemma FlattenOfGrid(dims: seq<nat>, f: int)
    requires 0 <= f < |Grid(dims)|
    ensures |Grid(dims)[f]| == |dims|
    ensures Flatten(dims, Grid(dims)[f]) == f
  {
    var q := Grid(dims)[f];
    GridElement(dims, f);
    FlattenIndex(dims, q);
    BoxIncreasing(Zeros(|dims|), dims);
    if Flatten(dims, q) != f {
      IncreasingDistinct(Grid(dims), Flatten(dims, q), f);
    }
  }

  /** Distinct in-grid coordinates have distinct flat indices. */
  lemma FlattenInjective(dims: seq<nat>, p: seq<int>, q: seq<int>)
    requires InGrid(p, dims) && InGrid(q, dims) && p != q
    ensures Flatten(dims, p) != Flatten(dims, q)
  {
    FlattenIndex(dims, p);
    FlattenIndex(dims, q);
  }

  // ---------------------------------------------------------------------
  // Filtering a row-major enumeration by a box

  lemma {:induction false} KeepConcat(xs: seq<seq<int>>, ys: seq<seq<int>>, lo: seq<int>, hi: seq<int>)
    requires |lo| == |hi|
    ensures KeepInBox(xs + ys, lo, hi) == KeepInBox(xs, lo, hi) + KeepInBox(ys, lo, hi)
    decreases |xs|
  {
    if xs == [] {
      assert xs + ys == ys;
    } else {
      var zs := xs + ys;
      assert zs != [] && zs[0] == xs[0] && zs[1..] == xs[1..] + ys;
      var head := if InBox(xs[0], lo, hi) then [xs[0]] else [];
      assert KeepInBox(zs, lo, hi) == head + KeepInBox(xs[1..] + ys, lo, hi);
      assert KeepInBox(xs, lo, hi) == head + KeepInBox(xs[1..], lo, hi);
      KeepConcat(xs[1..], ys, lo, hi);
      assert head + (KeepInBox(xs[1..], lo, hi) + KeepInBox(ys, lo, hi))
          == (head + KeepInBox(xs[1..], lo, hi)) + KeepInBox(ys, lo, hi);
    }
  }

  lemma ConsConcat(x: int, xs: seq<seq<int>>, ys: seq<seq<int>>)
    ensures Cons(x, xs + ys) == Cons(x, xs) + Cons(x, ys)
  {
    assert forall k :: 0 <= k < |xs| + |ys| ==> (xs + ys)[k] == if k < |xs| then xs[k] else ys[k - |xs|];
  }

  lemma {:induction false} KeepCons(x: int, inner: seq<seq<int>>, lo: seq<int>, hi: seq<int>)
    requires |lo| == |hi| && |lo| > 0
    ensures KeepInBox(Cons(x, inner), lo, hi)
         == if lo[0] <= x < hi[0] then Cons(x, KeepInBox(inner, lo[1..], hi[1..])) else []
    decreases |inner|
  {
    if inner == [] {
      assert Cons(x, inner) == [];
    } else {
      var c := Cons(x, inner);
      var h := [x] + inner[0];
      var rest := Cons(x, inner[1..]);
      assert c == [h] + rest;
      assert c[0] == h && c[1..] == rest;
      assert h[0] == x && h[1..] == inner[0];
      InBoxCons(h, lo, hi);
      var head := if InBox(h, lo, hi) then [h] else [];
      assert KeepInBox(c, lo, hi) == head + KeepInBox(rest, lo, hi);
      KeepCons(x, inner[1..], lo, hi);
      if lo[0] <= x < hi[0] {
        var ihead := if InBox(inner[0], lo[1..], hi[1..]) then [inner[0]] else [];
        assert KeepInBox(inner, lo[1..], hi[1..]) == ihead + KeepInBox(inner[1..], lo[1..], hi[1..]);
        ConsConcat(x, ihead, KeepInBox(inner[1..], lo[1..], hi[1..]));
        assert Cons(x, ihead) == head;
      } else {
        assert head == [];
      }
    }
  }

  lemma {:induction false} KeepLayers(a: int, b: int, inner: seq<seq<int>>, lo: seq<int>, hi: seq<int>)
    requires |lo| == |hi| && |lo| > 0
    ensures KeepInBox(Layers(a, b, inner), lo, hi)
         == Layers(Max(a, lo[0]), Min(b, hi[0]), KeepInBox(inner, lo[1..], hi[1..]))
    decreases b - a
  {
    var ki := KeepInBox(inner, lo[1..], hi[1..]);
    var top := Min(b, hi[0]);
    if a >= b {
      LayersEmpty(Max(a, lo[0]), top, ki);
    } else {
      var first := Cons(a, inner);
      var rest := Layers(a + 1, b, inner);
      assert Layers(a, b, inner) == first + rest;
      KeepConcat(first, rest, lo, hi);
      KeepCons(a, inner, lo, hi);
      KeepLayers(a + 1, b, inner, lo, hi);
      var k2 := Layers(Max(a + 1, lo[0]), top, ki);
      assert KeepInBox(rest, lo, hi) == k2;
      if a < lo[0] {
        assert KeepInBox(first, lo, hi) == [];
        assert Max(a, lo[0]) == Max(a + 1, lo[0]);
      } else if a < hi[0] {
        assert KeepInBox(first, lo, hi) == Cons(a, ki);
        assert Max(a, lo[0]) == a && Max(a + 1, lo[0]) == a + 1 && a < top;
        assert Layers(a, top, ki) == Cons(a, ki) + Layers(a + 1, top, ki);
      } else {
        assert KeepInBox(first, lo, hi) == [];
        LayersEmpty(Max(a + 1, lo[0]), top, ki);
        LayersEmpty(Max(a, lo[0]), top, ki);
      }
    }
  }

  lemma LayersEmpty(a: int, b: int, inner: seq<seq<int>>)
    requires a >= b
    ensures Layers(a, b, inner) == []
  {
  }


  /** Filtering the box [L, H) by the box [lo, hi) gives their intersection, still in row-major order. */
  lemma {:induction false} KeepBox(L: seq<int>, H: seq<int>, lo: seq<int>, hi: seq<int>)
    requires |L| == |H| == |lo| == |hi|
    ensures KeepInBox(Box(L, H), lo, hi) == Box(MaxSeq(L, lo), MinSeq(H, hi))
    decreases |L|
  {
    if |L| == 0 {
      assert InBox([], lo, hi);
    } else {
      KeepLayers(L[0], H[0], Box(L[1..], H[1..]), lo, hi);
      KeepBox(L[1..], H[1..], lo[1..], hi[1..]);
      assert MaxSeq(L, lo)[1..] == MaxSeq(L[1..], lo[1..]);
      assert MinSeq(H, hi)[1..] == MinSeq(H[1..], hi[1..]);
    }
  }

  /**
   * Scanning a grid whose extent covers the box [lo, hi) and keeping the
   * coordinates in [lo, hi) enumerates exactly `Box(lo, hi)`.
   */
  lemma KeepGrid(scan: seq<nat>, lo: seq<int>, hi: seq<int>)
    requires |scan| == |lo| == |hi|
    requires forall i :: 0 <= i < |lo| ==> 0 <= lo[i] && hi[i] <= scan[i]
    ensures KeepInBox(Grid(scan), lo, hi) == Box(lo, hi)
  {
    KeepBox(Zeros(|scan|), scan, lo, hi);
    assert MaxSeq(Zeros(|scan|), lo) == lo;
    assert MinSeq(scan, hi) == hi;
  }

  lemma {:induction false} KeepSuffix(cs: seq<seq<int>>, k: nat, lo: seq<int>, hi: seq<int>)
    requires |lo| == |hi| && k < |cs|
    ensures KeepInBox(cs[k..], lo, hi)
         == (if InBox(cs[k], lo, hi) then [cs[k]] else []) + KeepInBox(cs[k + 1..], lo, hi)
  {
    assert cs[k..][0] == cs[k] && cs[k..][1..] == cs[k + 1..];
  }

  // ---------------------------------------------------------------------
  // Boxes as shifted grids

  lemma ShiftConcat(lo: seq<int>, xs: seq<seq<int>>, ys: seq<seq<int>>)
    requires forall k :: 0 <= k < |xs| ==> |xs[k]| == |lo|
    requires forall k :: 0 <= k < |ys| ==> |ys[k]| == |lo|
    ensures Shift(lo, xs + ys) == Shift(lo, xs) + Shift(lo, ys)
  {
  }

  lemma ShiftCons(lo: seq<int>, x: int, inner: seq<seq<int>>)
    requires |lo| > 0
    requires forall k :: 0 <= k < |inner| ==> |inner[k]| == |lo| - 1
    ensures forall k :: 0 <= k < |Cons(x, inner)| ==> |Cons(x, inner)[k]| == |lo|
    ensures Shift(lo, Cons(x, inner)) == Cons(lo[0] + x, Shift(lo[1..], inner))
  {
    var l := Shift(lo, Cons(x, inner));
    var r := Cons(lo[0] + x, Shift(lo[1..], inner));
    forall k | 0 <= k < |inner| ensures l[k] == r[k] {
      AddCons(lo, x, inner[k]);
    }
    assert l == r;
  }

  /** Adding `lo` to `[x] + c` adds its head to `x` and its tail to `c`. */
  lemma AddCons(lo: seq<int>, x: int, c: seq<int>)
    requires |lo| == |c| + 1
    ensures Add(lo, [x] + c) == [lo[0] + x] + Add(lo[1..], c)
  {
    var l := Add(lo, [x] + c);
    var r := [lo[0] + x] + Add(lo[1..], c);
    forall i | 0 <= i < |r| ensures l[i] == r[i] {
      if i > 0 {
        assert ([x] + c)[i] == c[i - 1];
        assert r[i] == Add(lo[1..], c)[i - 1];
      }
    }
  }

  lemma {:induction false} LayersElementLength(a: int, b: int, inner: seq<seq<int>>, n: nat)
    requires forall k :: 0 <= k < |inner| ==> |inner[k]| == n
    ensures forall k :: 0 <= k < |Layers(a, b, inner)| ==> |Layers(a, b, inner)[k]| == n + 1
    decreases b - a
  {
    if a < b {
      LayersElementLength(a + 1, b, inner, n);
    }
  }

  lemma {:induction false} ShiftLayers(lo: seq<int>, a: int, b: int, inner: seq<seq<int>>)
    requires |lo| > 0
    requires forall k :: 0 <= k < |inner| ==> |inner[k]| == |lo| - 1
    ensures forall k :: 0 <= k < |Layers(a, b, inner)| ==> |Layers(a, b, inner)[k]| == |lo|
    ensures Shift(lo, Layers(a, b, inner)) == Layers(lo[0] + a, lo[0] + b, Shift(lo[1..], inner))
    decreases b - a
  {
    LayersElementLength(a, b, inner, |lo| - 1);
    if a < b {
      var head := Cons(a, inner);
      var rest := Layers(a + 1, b, inner);
      var shifted := Shift(lo[1..], inner);
      assert Layers(a, b, inner) == head + rest;
      ShiftLayers(lo, a + 1, b, inner);
      ShiftCons(lo, a, inner);
      LayersElementLength(a + 1, b, inner, |lo| - 1);
      ShiftConcat(lo, head, rest);
      assert Layers(lo[0] + a, lo[0] + b, shifted)
          == Cons(lo[0] + a, shifted) + Layers(lo[0] + a + 1, lo[0] + b, shifted);
    }
  }

  lemma GridElementLength(dims: seq<nat>)
    ensures forall k :: 0 <= k < |Grid(dims)| ==> |Grid(dims)[k]| == |dims|
  {
    forall k | 0 <= k < |Grid(dims)| ensures |Grid(dims)[k]| == |dims| {
      GridElement(dims, k);
    }
  }

  /** The box [lo, hi) is the grid of its extents shifted by `lo`. */
  lemma {:induction false} BoxShift(lo: seq<int>, hi: seq<int>)
    requires |lo| == |hi|
    ensures forall k :: 0 <= k < |Grid(Sizes(lo, hi))| ==> |Grid(Sizes(lo, hi))[k]| == |lo|
    ensures Box(lo, hi) == Shift(lo, Grid(Sizes(lo, hi)))
    decreases |lo|
  {
    var sz := Sizes(lo, hi);
    GridElementLength(sz);
    if |lo| > 0 {
      var t := sz[1..];
      assert t == Sizes(lo[1..], hi[1..]);
      BoxShift(lo[1..], hi[1..]);
      GridUnfold(sz);
      GridElementLength(t);
      ShiftLayers(lo, 0, sz[0], Grid(t));
    }
  }

  // ---------------------------------------------------------------------
  // Boolean-mask selection

  lemma {:induction false} CompressInGrid(cs: seq<seq<int>>, bits: seq<bool>, dims: seq<nat>)
    requires |cs| == |bits|
    requires forall k :: 0 <= k < |cs| ==> InGrid(cs[k], dims)
    ensures forall k :: 0 <= k < |Compress(cs, bits)| ==> InGrid(Compress(cs, bits)[k], dims)
    decreases |cs|
  {
    if cs != [] {
      CompressInGrid(cs[1..], bits[1..], dims);
    }
  }

  lemma {:induction false} CompressLength<T>(xs: seq<T>, bits: seq<bool>)
    requires |xs| == |bits|
    ensures |Compress(xs, bits)| == CountTrue(bits)
    decreases |xs|
  {
    if xs != [] {
      CompressLength(xs[1..], bits[1..]);
    }
  }

  /** Selecting the coordinates whose bit says "inside the box" is filtering by the box. */
  lemma {:induction false} CompressInBox(cs: seq<seq<int>>, bits: seq<bool>, lo: seq<int>, hi: seq<int>)
    requires |cs| == |bits| && |lo| == |hi|
    requires forall k :: 0 <= k < |cs| ==> (bits[k] <==> InBox(cs[k], lo, hi))
    ensures Compress(cs, bits) == KeepInBox(cs, lo, hi)
    decreases |cs|
  {
    if cs != [] {
      CompressInBox(cs[1..], bits[1..], lo, hi);
    }
  }

  /** Selection keeps what it selects in order: the entries of a strictly increasing list stay so. */
  lemma {:induction false} CompressIncreasing(cs: seq<seq<int>>, bits: seq<bool>)
    requires |cs| == |bits| && StrictlyIncreasing(cs)
    ensures StrictlyIncreasing(Compress(cs, bits))
    ensures forall c :: c in Compress(cs, bits) ==> c in cs
    decreases |cs|
  {
    if cs != [] {
      CompressIncreasing(cs[1..], bits[1..]);
      if bits[0] {
        forall v | v in Compress(cs[1..], bits[1..]) ensures LexLess(cs[0], v) {
          var k :| 0 <= k < |cs[1..]| && cs[1..][k] == v;
          assert cs[k + 1] == v;
        }
        ConcatIncreasing([cs[0]], Compress(cs[1..], bits[1..]));
      }
    }
  }

  /** An entry survives selection exactly when its bit is set (for an enumeration without repeats). */
  lemma {:induction false} CompressMember(cs: seq<seq<int>>, bits: seq<bool>, k: int)
    requires |cs| == |bits| && StrictlyIncreasing(cs) && 0 <= k < |cs|
    ensures cs[k] in Compress(cs, bits) <==> bits[k]
    decreases |cs|
  {
    CompressIncreasing(cs, bits);
    if k == 0 {
      if !bits[0] {
        CompressIncreasing(cs[1..], bits[1..]);
        if cs[0] in Compress(cs[1..], bits[1..]) {
          var j :| 0 <= j < |cs[1..]| && cs[1..][j] == cs[0];
          IncreasingDistinct(cs, 0, j + 1);
        }
      }
    } else {
      CompressMember(cs[1..], bits[1..], k - 1);
      assert cs[1..][k - 1] == cs[k];
      if bits[0] && cs[k] == cs[0] {
        IncreasingDistinct(cs, 0, k);
      }
    }
  }

  // ---------------------------------------------------------------------
  // Reading a C-ordered array at a list of coordinates

  /** The entries of the flat array `layer` (shape `dims`) at the coordinates `cs`. */
  function Gather(layer: seq<int>, dims: seq<nat>, cs: seq<seq<int>>): (r: seq<int>)
    requires |layer| == Product(dims)
    requires forall k :: 0 <= k < |cs| ==> InGrid(cs[k], dims)
    ensures |r| == |cs|
  {
    seq(|cs|, k requires 0 <= k < |cs| =>
      FlattenIndex(dims, cs[k]); GridLength(dims); layer[Flatten(dims, cs[k])])
  }

  lemma {:induction false} CompressGather(layer: seq<int>, dims: seq<nat>, cs: seq<seq<int>>, bits: seq<bool>)
    requires |layer| == Product(dims) && |cs| == |bits|
    requires forall k :: 0 <= k < |cs| ==> InGrid(cs[k], dims)
    ensures forall k :: 0 <= k < |Compress(cs, bits)| ==> InGrid(Compress(cs, bits)[k], dims)
    ensures Compress(Gather(layer, dims, cs), bits) == Gather(layer, dims, Compress(cs, bits))
    decreases |cs|
  {
    CompressInGrid(cs, bits, dims);
    if cs != [] {
      var g := Gather(layer, dims, cs);
      var tail := Gather(layer, dims, cs[1..]);
      CompressGather(layer, dims, cs[1..], bits[1..]);
      assert g[1..] == tail;
      var head := if bits[0] then [cs[0]] else [];
      var rest := Compress(cs[1..], bits[1..]);
      assert Compress(cs, bits) == head + rest;
      assert Compress(g, bits) == (if bits[0] then [g[0]] else []) + Compress(tail, bits[1..]);
      GatherConcat(layer, dims, head, rest);
      assert Gather(layer, dims, rest) == Compress(tail, bits[1..]);
      assert Gather(layer, dims, head) == if bits[0] then [g[0]] else [];
    }
  }

  lemma GatherConcat(layer: seq<int>, dims: seq<nat>, xs: seq<seq<int>>, ys: seq<seq<int>>)
    requires |layer| == Product(dims)
    requires forall k :: 0 <= k < |xs| ==> InGrid(xs[k], dims)
    requires forall k :: 0 <= k < |ys| ==> InGrid(ys[k], dims)
    ensures forall k :: 0 <= k < |xs + ys| ==> InGrid((xs + ys)[k], dims)
    ensures Gather(layer, dims, xs + ys) == Gather(layer, dims, xs) + Gather(layer, dims, ys)
  {
    assert forall k :: 0 <= k < |xs + ys| ==> (xs + ys)[k] == if k < |xs| then xs[k] else ys[k - |xs|];
  }

  /** Reading every coordinate of the grid in row-major order reads the whole flat array. */
  lemma GatherGrid(layer: seq<int>, dims: seq<nat>)
    requires |layer| == Product(dims)
    ensures forall k :: 0 <= k < |Grid(dims)| ==> InGrid(Grid(dims)[k], dims)
    ensures Gather(layer, dims, Grid(dims)) == layer
  {
    GridLength(dims);
    forall k | 0 <= k < |Grid(dims)| ensures InGrid(Grid(dims)[k], dims) {
      GridElement(dims, k);
    }
    forall k | 0 <= k < |layer| ensures Gather(layer, dims, Grid(dims))[k] == layer[k] {
      FlattenOfGrid(dims, k);
    }
  }

  // ---------------------------------------------------------------------
  // np.ndindex as a stateful iterator

  /**
   * `np.ndindex(*shape)`: hands out the coordinates of `Grid(shape)` one by
   * one and then reports exhaustion (StopIteration), here `None`.
   */
  class NdIndexIterator {
    const shape: seq<nat>
    var consumed: nat

    ghost predicate Valid()
      reads this
    {
      consumed <= |Grid(shape)|
    }

    constructor (shape: seq<nat>)
      ensures Valid() && this.shape == shape && consumed == 0
    {
      this.shape := shape;
      consumed := 0;
    }

    method Next() returns (c: Option<seq<int>>)
      requires Valid()
      modifies this
      ensures Valid()
      ensures old(consumed) < |Grid(shape)| ==> c == Some(Grid(shape)[old(consumed)]) && consumed == old(consumed) + 1
      ensures old(consumed) == |Grid(shape)| ==> c == None && consumed == old(consumed)
    {
      var all := Grid(shape);
      if consumed < |all| {
        c := Some(all[consumed]);
        consumed := consumed + 1;
      } else {
        c := None;
      }
    }
  }

  lemma {:induction false} CompressShift(lo: seq<int>, cs: seq<seq<int>>, bits: seq<bool>)
    requires |cs| == |bits|
    requires forall k :: 0 <= k < |cs| ==> |cs[k]| == |lo|
    ensures forall k :: 0 <= k < |Compress(cs, bits)| ==> |Compress(cs, bits)[k]| == |lo|
    ensures Compress(Shift(lo, cs), bits) == Shift(lo, Compress(cs, bits))
    decreases |cs|
  {
    if cs != [] {
      CompressShift(lo, cs[1..], bits[1..]);
      assert Shift(lo, cs)[1..] == Shift(lo, cs[1..]);
    }
  }

  // ---------------------------------------------------------------------
  // Blocks: the box [lo, lo + sizes) of a grid of shape dims

  predicate InBlock(c: seq<int>, lo: seq<int>, sizes: seq<nat>)
    requires |lo| == |sizes|
  {
    InBox(c, lo, Add(lo, sizes))
  }

  /** The block [lo, lo + sizes) lies inside the grid. */
  predicate BlockFits(dims: seq<nat>, lo: seq<int>, sizes: seq<nat>)
  {
    |lo| == |sizes| == |dims| &&
    forall i :: 0 <= i < |dims| ==> 0 <= lo[i] && lo[i] + sizes[i] <= dims[i]
  }

  /** Rank of `c` in the row-major order of the block: the index into an array of shape `sizes`. */
  function BlockRank(lo: seq<int>, sizes: seq<nat>, c: seq<int>): (k: nat)
    requires |lo| == |sizes| && InBlock(c, lo, sizes)
    ensures k < Product(sizes) && k < |Grid(sizes)|
    ensures Grid(sizes)[k] == Sub(c, lo)
  {
    FlattenIndex(sizes, Sub(c, lo));
    GridLength(sizes);
    Flatten(sizes, Sub(c, lo))
  }

  /** Flat grid index of the k-th coordinate of the block. */
  function BlockTarget(dims: seq<nat>, lo: seq<int>, sizes: seq<nat>, k: nat): (f: nat)
    requires BlockFits(dims, lo, sizes) && k < Product(sizes)
    ensures f < Product(dims) && f < |Grid(dims)|
    ensures k < |Grid(sizes)| && |Grid(sizes)[k]| == |lo|
    ensures Grid(dims)[f] == Add(lo, Grid(sizes)[k])
    ensures InGrid(Add(lo, Grid(sizes)[k]), dims) && f == Flatten(dims, Add(lo, Grid(sizes)[k]))
  {
    GridLength(sizes);
    GridElement(sizes, k);
    var q := Add(lo, Grid(sizes)[k]);
    assert InGrid(q, dims);
    FlattenIndex(dims, q);
    GridLength(dims);
    Flatten(dims, q)
  }

  lemma BlockTargetInBlock(dims: seq<nat>, lo: seq<int>, sizes: seq<nat>, k: nat)
    requires BlockFits(dims, lo, sizes) && k < Product(sizes)
    ensures var f := BlockTarget(dims, lo, sizes, k);
      InBlock(Grid(dims)[f], lo, sizes) && BlockRank(lo, sizes, Grid(dims)[f]) == k
  {
    var f := BlockTarget(dims, lo, sizes, k);
    var g := Grid(sizes)[k];
    GridElement(sizes, k);
    var c := Add(lo, g);
    assert Grid(dims)[f] == c;
    assert InBlock(c, lo, sizes);
    assert Sub(c, lo) == g;
    FlattenOfGrid(sizes, k);
  }

  lemma InBlockTarget(dims: seq<nat>, lo: seq<int>, sizes: seq<nat>, k: nat, f: nat)
    requires BlockFits(dims, lo, sizes) && k < Product(sizes) && f < |Grid(dims)|
    requires InBlock(Grid(dims)[f], lo, sizes) && BlockRank(lo, sizes, Grid(dims)[f]) == k
    ensures f == BlockTarget(dims, lo, sizes, k)
  {
    var c := Grid(dims)[f];
    var g := Grid(sizes)[k];
    assert g == Sub(c, lo);
    FlattenOfGrid(dims, f);
    AddSub(lo, c);
    var t := BlockTarget(dims, lo, sizes, k);
    assert t == Flatten(dims, Add(lo, g));
  }

  lemma AddSub(lo: seq<int>, c: seq<int>)
    requires |lo| == |c|
    ensures Add(lo, Sub(c, lo)) == c
  {
  }

  /** A flat index is the block's k-th target exactly when its coordinate lies in the block with rank k. */
  lemma BlockTargetIff(dims: seq<nat>, lo: seq<int>, sizes: seq<nat>, k: nat, f: nat)
    requires BlockFits(dims, lo, sizes) && k < Product(sizes) && f < |Grid(dims)|
    ensures (f == BlockTarget(dims, lo, sizes, k))
        <==> (InBlock(Grid(dims)[f], lo, sizes) && BlockRank(lo, sizes, Grid(dims)[f]) == k)
  {
    if f == BlockTarget(dims, lo, sizes, k) {
      BlockTargetInBlock(dims, lo, sizes, k);
    }
    if InBlock(Grid(dims)[f], lo, sizes) && BlockRank(lo, sizes, Grid(dims)[f]) == k {
      InBlockTarget(dims, lo, sizes, k, f);
    }
  }

  /** Every coordinate of a block that fits lies in the grid. */
  lemma BlockElements(dims: seq<nat>, lo: seq<int>, sizes: seq<nat>)
    requires BlockFits(dims, lo, sizes)
    ensures forall k :: 0 <= k < |Grid(sizes)| ==> InGrid(Shift(lo, Grid(sizes))[k], dims)
  {
    GridElements(sizes);
  }

  /** The entry of the flat array `layer` (shape `dims`) at coordinate `q`; 0 outside the array. */
  function LayerAt(layer: seq<int>, dims: seq<nat>, q: seq<int>): int
  {
    if |layer| == Product(dims) && InGrid(q, dims) then
      FlattenIndex(dims, q);
      layer[Flatten(dims, q)]
    else 0
  }

  /** Selecting with an all-true mask keeps everything. */
  lemma {:induction false} CompressAll<T>(xs: seq<T>, bits: seq<bool>)
    requires |xs| == |bits| && forall k :: 0 <= k < |bits| ==> bits[k]
    ensures Compress(xs, bits) == xs
    decreases |xs|
  {
    if xs != [] {
      CompressAll(xs[1..], bits[1..]);
    }
  }
}
