/**
 * The block arithmetic shared by both `GetGrayBlock` variants: the two grid
 * passes (7×7, then 6×6), the clamped cell sizes and cell coordinates, the
 * per-cell sums and counts a pass accumulates, and the 85-slot layout of the
 * block averages.
 *
 * A pass visits the positions `y = 0, stride, 2·stride, …` below
 * `width·height` and attributes to each one a gray value; `Sum` and `Count`
 * are what the source accumulates in `histogram` and `pixelN`.  The source
 * keeps both in float32 arrays; here sums are integers, counts naturals and
 * averages exact reals.
 */
module Grid {

  /** Number of slots of the block-average vector (NGRAYBLOCK). */
  const NGrayBlock: nat := 85
  /** Cells of the first (7×7) pass; the 6×6 pass is written from this offset. */
  const SecondPassOffset: nat := 49

  /** Grid count of pass 0 and pass 1. */
  function NumBlock(pass: nat): (n: nat)
    requires pass < 2
    ensures n > 0 && n * n + SecondPassOffset * pass <= NGrayBlock
    ensures pass == 0 ==> n * n == SecondPassOffset
    ensures pass == 1 ==> SecondPassOffset + n * n == NGrayBlock
  {
    if pass == 0 then 7 else 6
  }

  /** Linear index of pixel (col, row) in a row-major buffer of the given width. */
  function RowMajor(width: nat, col: nat, row: nat): nat
  {
    row * width + col
  }

  /** Row-major packing sends [0,width)×[0,height) into [0,width·height) and `%`, `/` undo it. */
  lemma RowMajorDecode(width: nat, height: nat, col: nat, row: nat)
    requires col < width && row < height
    ensures RowMajor(width, col, row) < width * height
    ensures RowMajor(width, col, row) % width == col
    ensures RowMajor(width, col, row) / width == row
  {
    var y := RowMajor(width, col, row);
    assert y < width * height by {
      assert row + 1 <= height;
      assert (row + 1) * width <= height * width;
    }
    DivModUnique(y, width, row, col);
  }

  /** Every index below width·height is the packing of (y % width, y / width), inside the grid. */
  lemma RowMajorEncode(width: nat, height: nat, y: nat)
    requires y < width * height
    ensures width > 0 && y % width < width && y / width < height
    ensures RowMajor(width, y % width, y / width) == y
  {
    assert width > 0;
  }

  lemma DivModUnique(y: int, d: int, q: int, r: int)
    requires d > 0 && 0 <= r < d && y == q * d + r
    ensures y / d == q && y % d == r
  {
    var q', r' := y / d, y % d;
    assert y == q' * d + r';
    if q > q' {
      MulMonotone(q' + 1, q, d);
    } else if q < q' {
      MulMonotone(q + 1, q', d);
    }
  }

  lemma MulMonotone(a: int, b: int, d: nat)
    requires a <= b
    ensures a * d <= b * d
  {
  }

  /**
   * Cell extent along one axis: extent / numBlock, or 1 when the image is
   * narrower than the grid, so that the later division never divides by 0.
   */
  function CellSize(extent: nat, numBlock: nat): (size: nat)
    requires numBlock > 0
    ensures size >= 1
    ensures extent < numBlock ==> size == 1
  {
    if extent / numBlock == 0 then 1 else extent / numBlock
  }

  /** When the image is at least as wide as the grid, numBlock cells of this size fit, one more does not. */
  lemma CellSizeFits(extent: nat, numBlock: nat)
    requires 0 < numBlock <= extent
    ensures CellSize(extent, numBlock) * numBlock <= extent < (CellSize(extent, numBlock) + 1) * numBlock
  {
  }

  /** Cell coordinate of position v along one axis, v / size clamped to numBlock-1. */
  function CellCoord(v: nat, size: nat, numBlock: nat): (c: nat)
    requires size >= 1 && numBlock >= 1
    ensures c < numBlock
  {
    if v / size > numBlock - 1 then numBlock - 1 else v / size
  }

  /**
   * The clamped coordinate is the largest c <= numBlock-1 whose cell starts
   * at or before v: the cell v falls in, or the last cell for positions past
   * the last full cell.
   */
  lemma CellCoordSpec(v: nat, size: nat, numBlock: nat)
    requires size >= 1 && numBlock >= 1
    ensures CellCoord(v, size, numBlock) * size <= v
    ensures CellCoord(v, size, numBlock) < numBlock - 1 ==> v < (CellCoord(v, size, numBlock) + 1) * size
  {
    var c := CellCoord(v, size, numBlock);
    if v / size > numBlock - 1 {
      MulMonotone(c, v / size, size);
    }
  }

  /**
   * Cell of linear position y in a pass over a numBlock×numBlock grid:
   * column and row of y, divided by the cell sizes and clamped, packed row-major.
   * Always a valid cell, so the source's "exception" branch cannot fire.
   */
  function CellIndex(y: nat, width: nat, height: nat, numBlock: nat): (cell: nat)
    requires width > 0 && numBlock > 0
    ensures cell < numBlock * numBlock
  {
    var xaxisIndex := CellCoord(y % width, CellSize(width, numBlock), numBlock);
    var yaxisIndex := CellCoord(y / width, CellSize(height, numBlock), numBlock);
    RowMajorDecode(numBlock, numBlock, xaxisIndex, yaxisIndex);
    RowMajor(numBlock, xaxisIndex, yaxisIndex)
  }

  /** The cell index packs the two clamped coordinates: `%` and `/` by numBlock recover them. */
  lemma CellIndexDecode(y: nat, width: nat, height: nat, numBlock: nat)
    requires width > 0 && numBlock > 0
    ensures CellIndex(y, width, height, numBlock) % numBlock
      == CellCoord(y % width, CellSize(width, numBlock), numBlock)
    ensures CellIndex(y, width, height, numBlock) / numBlock
      == CellCoord(y / width, CellSize(height, numBlock), numBlock)
  {
    var x := CellCoord(y % width, CellSize(width, numBlock), numBlock);
    var z := CellCoord(y / width, CellSize(height, numBlock), numBlock);
    RowMajorDecode(numBlock, numBlock, x, z);
  }

  /**
   * When the image is at least numBlock pixels in each direction, cell
   * (cx, cy) is hit by the pixel at its top-left corner (cx·cellW, cy·cellH).
   */
  lemma CellCorner(width: nat, height: nat, numBlock: nat, cx: nat, cy: nat)
    requires 0 < numBlock <= width && numBlock <= height
    requires cx < numBlock && cy < numBlock
    ensures var y := RowMajor(width, cx * CellSize(width, numBlock), cy * CellSize(height, numBlock));
      y < width * height && CellIndex(y, width, height, numBlock) == RowMajor(numBlock, cx, cy)
  {
    var sw, sh := CellSize(width, numBlock), CellSize(height, numBlock);
    var x, z := cx * sw, cy * sh;
    CornerInside(width, numBlock, cx);
    CornerInside(height, numBlock, cy);
    RowMajorDecode(width, height, x, z);
    DivModUnique(x, sw, cx, 0);
    DivModUnique(z, sh, cy, 0);
  }

  /** The first position of cell c along an axis lies inside the extent. */
  lemma CornerInside(extent: nat, numBlock: nat, c: nat)
    requires 0 < numBlock <= extent && c < numBlock
    ensures c * CellSize(extent, numBlock) < extent
  {
    var size := CellSize(extent, numBlock);
    CellSizeFits(extent, numBlock);
    MulMonotone(c + 1, numBlock, size);
  }

  /** Number of iterations of `for y := 0; y < count; y += stride`, that is ceil(count / stride). */
  function Steps(count: nat, stride: nat): (m: nat)
    requires stride > 0
    ensures m * stride >= count
    ensures m > 0 ==> (m - 1) * stride < count
  {
    (count + stride - 1) / stride
  }

  /** Step t of the scan is still inside the loop exactly when t < Steps(count, stride). */
  lemma StepInside(count: nat, stride: nat, t: nat)
    requires stride > 0
    ensures stride * t < count <==> t < Steps(count, stride)
  {
    var m := Steps(count, stride);
    if t < m {
      MulMonotone(t, m - 1, stride);
    } else {
      MulMonotone(m, t, stride);
    }
  }

  /** The positions `for y := 0; y < count; y += stride` visits, in order. */
  function Scan(count: nat, stride: nat): (ys: seq<nat>)
    requires stride > 0
    ensures |ys| == Steps(count, stride)
    ensures forall t :: 0 <= t < |ys| ==> ys[t] == stride * t
    ensures forall t :: 0 <= t < |ys| ==> ys[t] < count
  {
    var m := Steps(count, stride);
    seq(m, t requires 0 <= t < m => ScanStep(count, stride, m, t))
  }

  function ScanStep(count: nat, stride: nat, m: nat, t: nat): (y: nat)
    requires stride > 0 && m == Steps(count, stride) && t < m
    ensures y == stride * t < count
  {
    MulMonotone(t, m - 1, stride);
    stride * t
  }

  /** The cell of every visited position, in visiting order. */
  function Cells(ys: seq<nat>, width: nat, height: nat, numBlock: nat): (cells: seq<nat>)
    requires (width > 0 || |ys| == 0) && numBlock > 0
    ensures |cells| == |ys|
    ensures forall t :: 0 <= t < |ys| ==> cells[t] < numBlock * numBlock
  {
    seq(|ys|, t requires 0 <= t < |ys| => CellIndex(ys[t], width, height, numBlock))
  }

  /** Pixels attributed to cell c (pixelN[c] after the pass). */
  function Count(cells: seq<nat>, c: nat): nat
  {
    if |cells| == 0 then 0
    else Count(cells[..|cells| - 1], c) + (if cells[|cells| - 1] == c then 1 else 0)
  }

  /** Sum of the gray values attributed to cell c (histogram[c] after the pass). */
  function Sum(cells: seq<nat>, grays: seq<int>, c: nat): int
    requires |cells| == |grays|
  {
    if |cells| == 0 then 0
    else Sum(cells[..|cells| - 1], grays[..|grays| - 1], c)
         + (if cells[|cells| - 1] == c then grays[|grays| - 1] else 0)
  }

  /** Block value: sum / count, or 0 for a cell that received no pixel. */
  function Average(sum: int, count: nat): (avg: real)
    ensures count == 0 ==> avg == 0.0
    ensures count > 0 ==> avg * count as real == sum as real
  {
    if count == 0 then 0.0 else sum as real / count as real
  }

  /**
   * Block value of slot k: slots [0,49) hold the cells of the 7×7 pass,
   * slots [49,85) the cells of the 6×6 pass, each in row-major cell order.
   */
  function BlockSlot(ys: seq<nat>, grays: seq<int>, width: nat, height: nat, k: nat): real
    requires |ys| == |grays| && (width > 0 || |ys| == 0)
  {
    var pass := if k < SecondPassOffset then 0 else 1;
    var cells := Cells(ys, width, height, NumBlock(pass));
    Average(Sum(cells, grays, k - SecondPassOffset * pass), Count(cells, k - SecondPassOffset * pass))
  }

  /** The 85 block values of a scan (the float32 slice GetGrayBlock returns). */
  function GrayBlock(ys: seq<nat>, grays: seq<int>, width: nat, height: nat): (block: seq<real>)
    requires |ys| == |grays| && (width > 0 || |ys| == 0)
    ensures |block| == NGrayBlock
  {
    seq(NGrayBlock, k requires 0 <= k < NGrayBlock => BlockSlot(ys, grays, width, height, k))
  }

  /**
   * Layout of the block vector: slot 49·pass + c holds the average of cell c
   * of pass `pass`, for every cell of the 7×7 (pass 0) and 6×6 (pass 1) grids,
   * and these slots are exactly 0 … 84.
   */
  lemma GrayBlockLayout(ys: seq<nat>, grays: seq<int>, width: nat, height: nat, pass: nat, c: nat)
    requires |ys| == |grays| && (width > 0 || |ys| == 0)
    requires pass < 2 && c < NumBlock(pass) * NumBlock(pass)
    ensures SecondPassOffset * pass + c < NGrayBlock
    ensures var cells := Cells(ys, width, height, NumBlock(pass));
      GrayBlock(ys, grays, width, height)[SecondPassOffset * pass + c]
        == Average(Sum(cells, grays, c), Count(cells, c))
  {
    var k := SecondPassOffset * pass + c;
    if pass == 0 {
      assert NumBlock(pass) == 7 && k < SecondPassOffset;
    } else {
      assert NumBlock(pass) == 6 && SecondPassOffset <= k < NGrayBlock;
    }
    assert GrayBlock(ys, grays, width, height)[k] == BlockSlot(ys, grays, width, height, k);
  }

  // ---------------------------------------------------------------------------
  // Properties of a pass

  lemma CountSnoc(cells: seq<nat>, t: nat, c: nat)
    requires t < |cells|
    ensures Count(cells[..t + 1], c) == Count(cells[..t], c) + (if cells[t] == c then 1 else 0)
  {
    assert cells[..t + 1][..t] == cells[..t];
  }

  lemma SumSnoc(cells: seq<nat>, grays: seq<int>, t: nat, c: nat)
    requires |cells| == |grays| && t < |cells|
    ensures Sum(cells[..t + 1], grays[..t + 1], c)
      == Sum(cells[..t], grays[..t], c) + (if cells[t] == c then grays[t] else 0)
  {
    assert cells[..t + 1][..t] == cells[..t];
    assert grays[..t + 1][..t] == grays[..t];
  }

  /** One more visited position adds its gray to its own cell's sum and 1 to its count, and changes no other cell. */
  lemma PassStep(cells: seq<nat>, grays: seq<int>, t: nat)
    requires |cells| == |grays| && t < |cells|
    ensures forall c ::
      Sum(cells[..t + 1], grays[..t + 1], c) == Sum(cells[..t], grays[..t], c) + (if cells[t] == c then grays[t] else 0)
      && Count(cells[..t + 1], c) == Count(cells[..t], c) + (if cells[t] == c then 1 else 0)
  {
    forall c
      ensures Sum(cells[..t + 1], grays[..t + 1], c) == Sum(cells[..t], grays[..t], c) + (if cells[t] == c then grays[t] else 0)
      ensures Count(cells[..t + 1], c) == Count(cells[..t], c) + (if cells[t] == c then 1 else 0)
    {
      SumSnoc(cells, grays, t, c);
      CountSnoc(cells, t, c);
    }
  }

  /** Sum of the counts of cells 0 … k-1. */
  function CountTotal(cells: seq<nat>, k: nat): nat
  {
    if k == 0 then 0 else CountTotal(cells, k - 1) + Count(cells, k - 1)
  }

  lemma {:induction false} CountTotalSnoc(cells: seq<nat>, x: nat, k: nat)
    ensures CountTotal(cells + [x], k) == CountTotal(cells, k) + (if x < k then 1 else 0)
  {
    if k > 0 {
      CountTotalSnoc(cells, x, k - 1);
      assert (cells + [x])[..|cells|] == cells;
    }
  }

  /**
   * Every visited position is attributed to exactly one cell: when all cells
   * lie below k, the counts of cells 0 … k-1 add up to the number of positions.
   */
  lemma {:induction false} CountsCoverPass(cells: seq<nat>, k: nat)
    requires forall t :: 0 <= t < |cells| ==> cells[t] < k
    ensures CountTotal(cells, k) == |cells|
  {
    if |cells| == 0 {
      CountTotalEmpty(k);
    } else {
      var init := cells[..|cells| - 1];
      CountsCoverPass(init, k);
      CountTotalSnoc(init, cells[|cells| - 1], k);
      assert init + [cells[|cells| - 1]] == cells;
    }
  }

  /** A cell that some visited position falls in has a positive count. */
  lemma {:induction false} CountPositive(cells: seq<nat>, t: nat, c: nat)
    requires t < |cells| && cells[t] == c
    ensures Count(cells, c) > 0
  {
    var n := |cells| - 1;
    if t < n {
      CountPositive(cells[..n], t, c);
    }
  }

  lemma {:induction false} CountTotalEmpty(k: nat)
    ensures CountTotal([], k) == 0
  {
    if k > 0 {
      CountTotalEmpty(k - 1);
    }
  }

  /** When every gray value lies in [lo, hi], a cell's sum lies in [lo·count, hi·count]. */
  lemma {:induction false} SumBounds(cells: seq<nat>, grays: seq<int>, c: nat, lo: int, hi: int)
    requires |cells| == |grays|
    requires forall t :: 0 <= t < |grays| ==> lo <= grays[t] <= hi
    ensures lo * Count(cells, c) <= Sum(cells, grays, c) <= hi * Count(cells, c)
  {
    if |cells| > 0 {
      var n := |cells| - 1;
      SumBounds(cells[..n], grays[..n], c, lo, hi);
      var k := Count(cells[..n], c);
      if cells[n] == c {
        assert lo * (k + 1) == lo * k + lo;
        assert hi * (k + 1) == hi * k + hi;
      }
    }
  }

  /**
   * A block value is 0 for an empty cell; for a populated cell it lies
   * between the smallest and the largest gray value of the pass.
   */
  lemma AverageBounds(cells: seq<nat>, grays: seq<int>, c: nat, lo: int, hi: int)
    requires |cells| == |grays|
    requires forall t :: 0 <= t < |grays| ==> lo <= grays[t] <= hi
    ensures Count(cells, c) == 0 ==> Average(Sum(cells, grays, c), Count(cells, c)) == 0.0
    ensures Count(cells, c) > 0 ==>
      lo as real <= Average(Sum(cells, grays, c), Count(cells, c)) <= hi as real
  {
    var n := Count(cells, c);
    var s := Sum(cells, grays, c);
    SumBounds(cells, grays, c, lo, hi);
    if n > 0 {
      RealDivBounds(s, n, lo, hi);
    }
  }

  lemma RealDivBounds(s: int, n: nat, lo: int, hi: int)
    requires n > 0 && lo * n <= s <= hi * n
    ensures lo as real <= s as real / n as real <= hi as real
  {
    var q := s as real / n as real;
    assert q * n as real == s as real;
    assert (lo * n) as real == lo as real * n as real;
    assert (hi * n) as real == hi as real * n as real;
  }

  /**
   * A uniform input (every visited pixel has gray v) makes every populated
   * block equal v and every empty block 0.
   */
  lemma UniformGrayBlock(ys: seq<nat>, grays: seq<int>, width: nat, height: nat, v: int, k: nat)
    requires |ys| == |grays| && (width > 0 || |ys| == 0)
    requires forall t :: 0 <= t < |grays| ==> grays[t] == v
    requires k < NGrayBlock
    ensures GrayBlock(ys, grays, width, height)[k] in {0.0, v as real}
  {
    var pass := if k < SecondPassOffset then 0 else 1;
    var cells := Cells(ys, width, height, NumBlock(pass));
    AverageBounds(cells, grays, k - SecondPassOffset * pass, v, v);
  }

  // ---------------------------------------------------------------------------
  // The loops of GetGrayBlock that both variants share

  /** Zero the first NGrayBlock sums and counts before a pass. */
  method ClearCounters(histogram: array<int>, pixelN: array<nat>)
    requires histogram.Length == NGrayBlock && pixelN.Length == NGrayBlock
    modifies histogram, pixelN
    ensures forall j :: 0 <= j < NGrayBlock ==> histogram[j] == 0 && pixelN[j] == 0
  {
    var j := 0;
    while j < NGrayBlock
      invariant 0 <= j <= NGrayBlock
      invariant forall i :: 0 <= i < j ==> histogram[i] == 0 && pixelN[i] == 0
    {
      histogram[j] := 0;
      pixelN[j] := 0;
      j := j + 1;
    }
  }

  /** `histogram[cell] += gray; pixelN[cell]++`: one visited position added to its cell. */
  method AddSample(histogram: array<int>, pixelN: array<nat>, cell: nat, gray: int)
    requires cell < histogram.Length && cell < pixelN.Length
    modifies histogram, pixelN
    ensures forall c :: 0 <= c < histogram.Length ==>
      histogram[c] == old(histogram[c]) + (if c == cell then gray else 0)
    ensures forall c :: 0 <= c < pixelN.Length ==>
      pixelN[c] == old(pixelN[c]) + (if c == cell then 1 else 0)
  {
    histogram[cell] := histogram[cell] + gray;
    pixelN[cell] := pixelN[cell] + 1;
  }

  /**
   * Write the averages of cells 0 … numBlock²-1 from `offset` on; a cell
   * with no pixel leaves its slot as it was, and nothing is divided by zero.
   */
  method StoreAverages(histogram: array<int>, pixelN: array<nat>, histogram2: array<real>,
                       numBlock: nat, offset: nat)
    requires histogram.Length == NGrayBlock && pixelN.Length == NGrayBlock
    requires histogram2.Length == NGrayBlock
    requires offset + numBlock * numBlock <= NGrayBlock
    modifies histogram2
    ensures forall k :: 0 <= k < NGrayBlock ==>
      histogram2[k] == if offset <= k < offset + numBlock * numBlock && pixelN[k - offset] != 0
                       then histogram[k - offset] as real / pixelN[k - offset] as real
                       else old(histogram2[k])
  {
    var numBlock2 := numBlock * numBlock;
    var j := 0;
    while j < numBlock2
      invariant 0 <= j <= numBlock2
      invariant forall k :: 0 <= k < NGrayBlock ==>
        histogram2[k] == if offset <= k < offset + j && pixelN[k - offset] != 0
                         then histogram[k - offset] as real / pixelN[k - offset] as real
                         else old(histogram2[k])
    {
      if pixelN[j] != 0 {
        histogram2[j + offset] := histogram[j] as real / pixelN[j] as real;
      }
      j := j + 1;
    }
  }
}
