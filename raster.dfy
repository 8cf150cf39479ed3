/** numpy integer arrays as values: a shape and the cells in row-major (C)
    order, with numpy's indexing rules and the slices mask_to_objects.py takes
    (a depth plane `a[:, :, d]` and a timestep `a[t]`), and the binarised copy
    that is handed to the contour tracer. */
module Raster {
  import opened Outcomes

  datatype NdArray = NdArray(shape: seq<nat>, cells: seq<int>)

  /** Number of cells of an array of the given shape. */
  function Product(shape: seq<nat>): nat
  {
    if shape == [] then 1 else Times(shape[0], Product(shape[1..]))
  }

  function Times(a: nat, b: nat): nat
  {
    MulMono(0, a, b);
    a * b
  }

  /** The cells fill the shape exactly. */
  predicate Wf(a: NdArray)
  {
    |a.cells| == Product(a.shape)
  }

  /** numpy's reading of one index along an axis of length n: a negative
      index counts from the end, anything else out of range raises. */
  function Wrap(i: int, n: nat): (r: Option<nat>)
    ensures r.Some? <==> -(n as int) <= i < n
    ensures r.Some? ==> r.value < n && (r.value == i || r.value == i + n)
  {
    if 0 <= i < n then Some(i) else if -(n as int) <= i < 0 then Some(i + n) else None
  }

  lemma ProductOfTwo(s: seq<nat>)
    requires |s| == 2
    ensures Product(s) == Times(s[0], s[1])
  {
    assert s[1..][0] == s[1] && s[1..][1..] == [];
    assert Product(s[1..]) == Times(s[1], Product([])) == s[1];
  }

  lemma ProductOfThree(s: seq<nat>)
    requires |s| == 3
    ensures Product(s) == Times(Times(s[0], s[1]), s[2])
  {
    ProductOfTwo(s[1..]);
    assert s[1..][1..][1..] == [];
    var a, b, c := s[0], s[1], s[2];
    assert a * (b * c) == (a * b) * c;
  }

  /** The row-major position of entry (i, j) in an n-by-m block. */
  function Offset(i: nat, j: nat, n: nat, m: nat): (k: nat)
    requires i < n && j < m
    ensures k < Times(n, m)
  {
    RowMajorBound(i, j, n, m);
    i * m + j
  }

  /** Row-major offsets stay inside the buffer: i * m + j < n * m. */
  lemma RowMajorBound(i: nat, j: nat, n: nat, m: nat)
    requires i < n && j < m
    ensures i * m + j < n * m
    ensures i * m + j < Times(n, m)
  {
    calc {
      i * m + j;
    <
      i * m + m;
    ==
      (i + 1) * m;
    <=
      { MulMono(i + 1, n, m); }
      n * m;
    }
  }

  lemma FrameBound(t: nat, n: nat, size: nat)
    requires t < n
    ensures t * size + size <= Times(n, size)
  {
    MulMono(t + 1, n, size);
  }

  lemma MulMono(a: nat, b: nat, m: nat)
    requires a <= b
    ensures a * m <= b * m
  {
  }

  /** `a[row, col]` on a 2-dimensional array. */
  function Index2(a: NdArray, row: int, col: int): (r: Result<int>)
    requires Wf(a) && |a.shape| == 2
    ensures r.Ok? <==> -a.shape[0] <= row < a.shape[0] && -a.shape[1] <= col < a.shape[1]
    ensures r.Err? ==> r.error == OutOfBounds
  {
    var h, w := a.shape[0], a.shape[1];
    match (Wrap(row, h), Wrap(col, w))
    case (Some(i), Some(j)) =>
      ProductOfTwo(a.shape);
      Ok(a.cells[Offset(i, j, h, w)])
    case _ => Err(OutOfBounds)
  }

  /** `a[row, col, d]` on a 3-dimensional array. */
  function Index3(a: NdArray, row: int, col: int, d: int): (r: Result<int>)
    requires Wf(a) && |a.shape| == 3
    ensures r.Ok? <==> -a.shape[0] <= row < a.shape[0] && -a.shape[1] <= col < a.shape[1]
                       && -a.shape[2] <= d < a.shape[2]
    ensures r.Err? ==> r.error == OutOfBounds
  {
    var h, w, depth := a.shape[0], a.shape[1], a.shape[2];
    match (Wrap(row, h), Wrap(col, w), Wrap(d, depth))
    case (Some(i), Some(j), Some(k)) =>
      ProductOfThree(a.shape);
      Ok(a.cells[Offset(Offset(i, j, h, w), k, Times(h, w), depth)])
    case _ => Err(OutOfBounds)
  }

  /** The depth plane `a[:, :, d]` of a 3-dimensional array. */
  function Plane(a: NdArray, d: nat): (p: NdArray)
    requires Wf(a) && |a.shape| == 3 && d < a.shape[2]
    ensures Wf(p) && p.shape == a.shape[..2]
  {
    var h, w, depth := a.shape[0], a.shape[1], a.shape[2];
    ProductOfThree(a.shape);
    ProductOfTwo(a.shape[..2]);
    NdArray(a.shape[..2], seq(Times(h, w), k requires 0 <= k < Times(h, w) =>
      a.cells[Offset(k, d, Times(h, w), depth)]))
  }

  /** The volume `a[t]` of a 4-dimensional array. */
  function Frame(a: NdArray, t: nat): (f: NdArray)
    requires Wf(a) && |a.shape| == 4 && t < a.shape[0]
    ensures Wf(f) && f.shape == a.shape[1..]
  {
    var size := Product(a.shape[1..]);
    FrameBound(t, a.shape[0], size);
    NdArray(a.shape[1..], a.cells[t * size .. t * size + size])
  }

  /** The volume `a[t]` holds the t-th block of the cells, one volume's size
      long, in order. */
  lemma FrameCells(a: NdArray, t: nat)
    requires Wf(a) && |a.shape| == 4 && t < a.shape[0]
    ensures var size := Product(a.shape[1..]);
      && |Frame(a, t).cells| == size
      && t * size + size <= |a.cells|
      && forall k :: 0 <= k < size ==> Frame(a, t).cells[k] == a.cells[t * size + k]
  {
    FrameBound(t, a.shape[0], Product(a.shape[1..]));
  }

  /** Reading a plane of a volume is reading the volume at that depth. */
  lemma PlaneIndex(a: NdArray, d: nat, row: int, col: int)
    requires Wf(a) && |a.shape| == 3 && d < a.shape[2]
    ensures Index2(Plane(a, d), row, col) == Index3(a, row, col, d)
  {
  }

  /** The copy handed to the contour tracer: 255 where the mask is not the
      background, 0 elsewhere, in the mask's shape. */
  function BinaryOf(mask: NdArray, background: int): (b: NdArray)
    ensures b.shape == mask.shape && |b.cells| == |mask.cells|
    ensures Wf(mask) ==> Wf(b)
    ensures forall k :: 0 <= k < |b.cells| ==> (b.cells[k] == 255 <==> mask.cells[k] != background)
    ensures forall k :: 0 <= k < |b.cells| ==> (b.cells[k] == 0 <==> mask.cells[k] == background)
  {
    NdArray(mask.shape, seq(|mask.cells|, k requires 0 <= k < |mask.cells| =>
      if mask.cells[k] != background then 255 else 0))
  }

  /** The binarised copy agrees with the mask pixel by pixel, under the same
      indexing (so also for negative, wrapped indices). */
  lemma BinaryOfAt(mask: NdArray, background: int, row: int, col: int)
    requires Wf(mask) && |mask.shape| == 2
    ensures Index2(BinaryOf(mask, background), row, col).Ok? == Index2(mask, row, col).Ok?
    ensures Index2(mask, row, col).Ok? ==>
      (Index2(BinaryOf(mask, background), row, col).value == 255 <==> Index2(mask, row, col).value != background)
    ensures Index2(mask, row, col).Ok? ==>
      (Index2(BinaryOf(mask, background), row, col).value == 0 <==> Index2(mask, row, col).value == background)
  {
    var b := BinaryOf(mask, background);
    var h, w := mask.shape[0], mask.shape[1];
    match (Wrap(row, h), Wrap(col, w))
    case (Some(i), Some(j)) =>
      var k := Offset(i, j, h, w);
      ProductOfTwo(mask.shape);
      assert Index2(mask, row, col) == Ok(mask.cells[k]);
      assert Index2(b, row, col) == Ok(b.cells[k]);
    case _ =>
  }

  /** A mask holding only the background binarises to all zeros. */
  lemma BinaryOfBackground(mask: NdArray, background: int)
    requires forall k :: 0 <= k < |mask.cells| ==> mask.cells[k] == background
    ensures BinaryOf(mask, background) == NdArray(mask.shape, seq(|mask.cells|, _ => 0))
  {
  }

  /** `mask_cpy = np.zeros(mask.shape); mask_cpy[mask != background] = 255`,
      written into a fresh buffer; the mask itself is a value and is not
      changed. */
  method Binarise(mask: NdArray, background: int) returns (b: NdArray)
    ensures b == BinaryOf(mask, background)
  {
    var cpy := new int[|mask.cells|](_ => 0);
    for k := 0 to |mask.cells|
      invariant forall j :: 0 <= j < k ==> cpy[j] == (if mask.cells[j] != background then 255 else 0)
      invariant forall j :: k <= j < cpy.Length ==> cpy[j] == 0
    {
      if mask.cells[k] != background {
        cpy[k] := 255;
      }
    }
    b := NdArray(mask.shape, cpy[..]);
  }
}
