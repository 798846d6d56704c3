/**
 * The pixel side of golobal.go: `ExtractRGB` packs the (already resized)
 * image into three row-major channel arrays, and `GetGrayBlock` turns them
 * into the 85 block averages with a 7×7 and a 6×6 pass.
 *
 * The image is given by its pixel accessor: `at(col, row)` is what
 * `image.At(col, row).RGBA()` returns, four 16-bit channels in uint32s.
 */
module Golobal {
  import opened Grid

  /** The size ExtractGlobalHash resizes every image to before ExtractRGB. */
  const ResizeWidth: nat := 150
  const ResizeHeight: nat := 200

  /** Go's uint32. */
  type U32 = x: int | 0 <= x < 0x1_0000_0000
  /** A channel as `RGBA()` returns it: 0 … 0xffff. */
  type Channel = x: int | 0 <= x < 0x1_0000

  datatype Rgba = Rgba(r: Channel, g: Channel, b: Channel, a: Channel)

  /** The pixel that index y of a row-major buffer of the given width stands for. */
  function PixelOf(at: (nat, nat) -> Rgba, width: nat, y: nat): Rgba
  {
    if width == 0 then at(0, 0) else at(y % width, y / width)
  }

  /**
   * Pixel (col, row) goes to index row·width + col of each channel array, and
   * index y holds pixel (y % width, y / width): the decoding GetGrayBlock uses.
   */
  method ExtractRGB(at: (nat, nat) -> Rgba, width: nat, height: nat)
    returns (red: seq<U32>, green: seq<U32>, blue: seq<U32>)
    ensures |red| == width * height && |green| == width * height && |blue| == width * height
    ensures forall y :: 0 <= y < |red| ==> red[y] == PixelOf(at, width, y).r
    ensures forall y :: 0 <= y < |green| ==> green[y] == PixelOf(at, width, y).g
    ensures forall y :: 0 <= y < |blue| ==> blue[y] == PixelOf(at, width, y).b
  {
    var n := width * height;
    var r := new U32[n];
    var g := new U32[n];
    var b := new U32[n];
    var row := 0;
    while row < height
      invariant 0 <= row <= height && row * width <= n
      invariant forall y :: 0 <= y < row * width ==>
        r[y] == PixelOf(at, width, y).r && g[y] == PixelOf(at, width, y).g && b[y] == PixelOf(at, width, y).b
    {
      ExtractRow(at, width, height, row, r, g, b);
      row := row + 1;
    }
    assert row * width == n;
    red, green, blue := r[..], g[..], b[..];
  }

  /**
   * ExtractRGB's packing and GetGrayBlock's decoding are inverse: pixel
   * (col, row) is stored at row·width + col < width·height, and that index
   * decodes back to (col, row).
   */
  lemma PackedPixel(at: (nat, nat) -> Rgba, width: nat, height: nat, col: nat, row: nat)
    requires col < width && row < height
    ensures RowMajor(width, col, row) < width * height
    ensures PixelOf(at, width, RowMajor(width, col, row)) == at(col, row)
  {
    RowMajorDecode(width, height, col, row);
  }

  /** The inner loop of ExtractRGB: fill the channel entries of one row. */
  method ExtractRow(at: (nat, nat) -> Rgba, width: nat, height: nat, row: nat,
                    r: array<U32>, g: array<U32>, b: array<U32>)
    requires row < height
    requires r.Length == width * height && g.Length == width * height && b.Length == width * height
    requires r != g && g != b && r != b
    requires forall y :: 0 <= y < row * width ==>
      r[y] == PixelOf(at, width, y).r && g[y] == PixelOf(at, width, y).g && b[y] == PixelOf(at, width, y).b
    modifies r, g, b
    ensures (row + 1) * width <= width * height
    ensures forall y :: 0 <= y < (row + 1) * width ==>
      r[y] == PixelOf(at, width, y).r && g[y] == PixelOf(at, width, y).g && b[y] == PixelOf(at, width, y).b
  {
    ghost var n := width * height;
    ghost var pixels := seq(n, y requires 0 <= y => PixelOf(at, width, y));
    ghost var base := row * width;
    RowMajorBound(width, height, row + 1);
    assert base + width == (row + 1) * width;
    var col := 0;
    while col < width
      invariant 0 <= col <= width && base + col <= n
      invariant forall y :: 0 <= y < base + col ==>
        r[y] == pixels[y].r && g[y] == pixels[y].g && b[y] == pixels[y].b
    {
      var index := row * width + col;
      RowMajorDecode(width, height, col, row);
      var pixel := at(col, row);
      assert index == base + col && pixels[index] == pixel;
      r[index], g[index], b[index] := pixel.r, pixel.g, pixel.b;
      col := col + 1;
    }
  }

  lemma RowMajorBound(width: nat, height: nat, rows: nat)
    requires rows <= height
    ensures rows * width <= width * height
  {
    MulMonotone(rows, height, width);
  }

  /**
   * Gray of one pixel, `(blue + green + red) / 3` in uint32 arithmetic: the
   * sum wraps modulo 2^32 before the truncating division.
   */
  function Gray32(blue: U32, green: U32, red: U32): (gray: nat)
    ensures gray <= 0x5555_5555
    ensures blue + green + red < 0x1_0000_0000 ==>
      3 * gray <= blue + green + red < 3 * gray + 3
  {
    ((blue + green + red) % 0x1_0000_0000) / 3
  }

  /**
   * Channels from `RGBA()` are 16-bit, so their uint32 sum cannot wrap and
   * the gray is the truncated mean, between the smallest and the largest channel.
   */
  lemma ChannelGray(c: Rgba)
    ensures c.b + c.g + c.r < 0x1_0000_0000
    ensures 3 * Gray32(c.b, c.g, c.r) <= c.b + c.g + c.r < 3 * Gray32(c.b, c.g, c.r) + 3
    ensures Min3(c.b, c.g, c.r) <= Gray32(c.b, c.g, c.r) <= Max3(c.b, c.g, c.r)
  {
  }

  function Min3(x: int, y: int, z: int): int
  {
    if x <= y && x <= z then x else if y <= z then y else z
  }

  function Max3(x: int, y: int, z: int): int
  {
    if x >= y && x >= z then x else if y >= z then y else z
  }

  /** The gray value GetGrayBlock computes at each pixel index below `count`. */
  function Grays(red: seq<U32>, green: seq<U32>, blue: seq<U32>, count: nat): (grays: seq<int>)
    requires count <= |red| && count <= |green| && count <= |blue|
    ensures |grays| == count
  {
    seq(count, y requires 0 <= y < count => Gray32(blue[y], green[y], red[y]))
  }

  /** The pixel indices GetGrayBlock visits: every index below width·height. */
  function PixelIndices(width: nat, height: nat): (ys: seq<nat>)
    ensures |ys| == width * height
    ensures forall y :: 0 <= y < |ys| ==> ys[y] == y
  {
    Scan(width * height, 1)
  }

  /**
   * One pass of GetGrayBlock over every pixel index below width·height: after
   * it, histogram[c] is the sum of the grays of the pixels of cell c and
   * pixelN[c] their number, for the numBlock×numBlock grid.
   */
  method AccumulatePass(red: seq<U32>, green: seq<U32>, blue: seq<U32>, width: nat, height: nat,
                        numBlock: nat, histogram: array<int>, pixelN: array<nat>)
    requires width * height <= |red| && width * height <= |green| && width * height <= |blue|
    requires 0 < numBlock && numBlock * numBlock <= NGrayBlock
    requires histogram.Length == NGrayBlock && pixelN.Length == NGrayBlock
    requires forall j :: 0 <= j < NGrayBlock ==> histogram[j] == 0 && pixelN[j] == 0
    modifies histogram, pixelN
    ensures var cells := Cells(PixelIndices(width, height), width, height, numBlock);
      var grays := Grays(red, green, blue, width * height);
      (forall c :: 0 <= c < NGrayBlock ==> histogram[c] == Sum(cells, grays, c))
      && (forall c :: 0 <= c < NGrayBlock ==> pixelN[c] == Count(cells, c))
  {
    var pixelCnt := width * height;
    ghost var cells := Cells(PixelIndices(width, height), width, height, numBlock);
    ghost var grays := Grays(red, green, blue, pixelCnt);
    var y := 0;
    while y < pixelCnt
      invariant 0 <= y <= pixelCnt
      invariant forall c :: 0 <= c < NGrayBlock ==> histogram[c] == Sum(cells[..y], grays[..y], c)
      invariant forall c :: 0 <= c < NGrayBlock ==> pixelN[c] == Count(cells[..y], c)
    {
      var grayResult := Gray32(blue[y], green[y], red[y]);
      var indexHist := CellIndex(y, width, height, numBlock);
      assert indexHist == cells[y] && grayResult == grays[y];
      PassStep(cells, grays, y);
      histogram[indexHist] := histogram[indexHist] + grayResult;
      pixelN[indexHist] := pixelN[indexHist] + 1;
      y := y + 1;
    }
    assert cells[..y] == cells && grays[..y] == grays;
  }

  /**
   * GetGrayBlock of golobal.go: the 85 block values, slots [0,49) from the
   * 7×7 pass and [49,85) from the 6×6 pass, each the exact mean gray of the
   * pixels of its cell, or 0 for a cell without pixels.
   */
  method GetGrayBlock(red: seq<U32>, green: seq<U32>, blue: seq<U32>, width: nat, height: nat)
    returns (block: seq<real>)
    requires width * height <= |red| && width * height <= |green| && width * height <= |blue|
    ensures block == GrayBlock(PixelIndices(width, height), Grays(red, green, blue, width * height), width, height)
  {
    var histogram := new int[NGrayBlock];
    var histogram2 := new real[NGrayBlock](_ => 0.0);
    var pixelN := new nat[NGrayBlock];
    ghost var ys := PixelIndices(width, height);
    ghost var grays := Grays(red, green, blue, width * height);
    for i := 0 to 2
      invariant forall k :: 0 <= k < NGrayBlock ==>
        histogram2[k] == if k < SecondPassOffset * i then BlockSlot(ys, grays, width, height, k) else 0.0
    {
      var numBlock := if i == 0 then 7 else 6;
      assert numBlock == NumBlock(i);
      ClearCounters(histogram, pixelN);
      AccumulatePass(red, green, blue, width, height, numBlock, histogram, pixelN);
      StoreAverages(histogram, pixelN, histogram2, numBlock, SecondPassOffset * i);
    }
    block := histogram2[..];
  }

  // ---------------------------------------------------------------------------
  // Properties of GetGrayBlock

  /** In each pass every pixel is attributed to exactly one cell: the counts add up to width·height. */
  lemma PassCoversImage(width: nat, height: nat, pass: nat)
    requires pass < 2
    ensures var n := NumBlock(pass);
      CountTotal(Cells(PixelIndices(width, height), width, height, n), n * n) == width * height
  {
    var n := NumBlock(pass);
    CountsCoverPass(Cells(PixelIndices(width, height), width, height, n), n * n);
  }

  /** An image at least n pixels wide and high leaves no cell of the n×n pass empty. */
  lemma EveryCellPopulated(width: nat, height: nat, pass: nat, c: nat)
    requires pass < 2 && NumBlock(pass) <= width && NumBlock(pass) <= height
    requires c < NumBlock(pass) * NumBlock(pass)
    ensures Count(Cells(PixelIndices(width, height), width, height, NumBlock(pass)), c) > 0
  {
    var n := NumBlock(pass);
    var cells := Cells(PixelIndices(width, height), width, height, n);
    RowMajorEncode(n, n, c);
    var cx, cy := c % n, c / n;
    CellCorner(width, height, n, cx, cy);
    var y := RowMajor(width, cx * CellSize(width, n), cy * CellSize(height, n));
    assert cells[y] == c;
    CountPositive(cells, y, c);
  }

  /**
   * On the resized 150×200 image each pass attributes all 30000 pixels, and
   * every cell of both grids receives at least one of them.
   */
  lemma ResizedImageCoverage(pass: nat, c: nat)
    requires pass < 2 && c < NumBlock(pass) * NumBlock(pass)
    ensures var n := NumBlock(pass);
      CountTotal(Cells(PixelIndices(ResizeWidth, ResizeHeight), ResizeWidth, ResizeHeight, n), n * n) == 30000
    ensures Count(Cells(PixelIndices(ResizeWidth, ResizeHeight), ResizeWidth, ResizeHeight, NumBlock(pass)), c) > 0
  {
    PassCoversImage(ResizeWidth, ResizeHeight, pass);
    EveryCellPopulated(ResizeWidth, ResizeHeight, pass, c);
  }

  /**
   * An image whose pixels all have gray v and which is at least 7×7 pixels
   * yields exactly v in all 85 block slots, with sums and averages taken
   * exactly (the float32 program rounds them).
   */
  lemma UniformImageGrayBlock(red: seq<U32>, green: seq<U32>, blue: seq<U32>, width: nat, height: nat,
                              v: nat, k: nat)
    requires width * height <= |red| && width * height <= |green| && width * height <= |blue|
    requires forall y :: 0 <= y < width * height ==> Gray32(blue[y], green[y], red[y]) == v
    requires NumBlock(0) <= width && NumBlock(0) <= height
    requires k < NGrayBlock
    ensures GrayBlock(PixelIndices(width, height), Grays(red, green, blue, width * height), width, height)[k]
      == v as real
  {
    var ys := PixelIndices(width, height);
    var grays := Grays(red, green, blue, width * height);
    var pass := if k < SecondPassOffset then 0 else 1;
    var c := k - SecondPassOffset * pass;
    assert NumBlock(1) <= NumBlock(0);
    GrayBlockLayout(ys, grays, width, height, pass, c);
    EveryCellPopulated(width, height, pass, c);
    AverageBounds(Cells(ys, width, height, NumBlock(pass)), grays, c, v, v);
  }
}
