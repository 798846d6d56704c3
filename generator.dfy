/**
 * The `GetGrayBlock` of hash/generator/generator.go, which reads an
 * interleaved blue-green-red byte buffer.
 *
 * Its pixel loop runs `for y := 0; y < width*height; y += 3`, reads the three
 * bytes at y, y+1, y+2, and places the byte offset y itself in the grid
 * (`y % width`, `y / width`) as if it were a pixel position. The channel sum
 * is taken in uint8 and wraps modulo 256 before the division by 3. The model
 * keeps all of this as written.
 */
module Generator {
  import opened Grid

  /** Go's uint8. */
  type U8 = x: int | 0 <= x < 0x100

  /** Bytes per step of the scan: blue, green, red. */
  const Stride: nat := 3

  /**
   * Gray of one step, `(blue + green + red) / 3` in uint8 arithmetic: the sum
   * wraps modulo 256, so the result never exceeds 85, and it is the truncated
   * mean of the three bytes exactly when their sum stays below 256.
   */
  function ByteGray(blue: U8, green: U8, red: U8): (gray: nat)
    ensures gray <= 85
    ensures blue + green + red < 0x100 <==> 3 * gray <= blue + green + red < 3 * gray + 3
  {
    ((blue + green + red) % 0x100) / 3
  }

  /** The gray value of every step of the scan below `count`. */
  function ByteGrays(imageBytes: seq<U8>, count: nat): (grays: seq<int>)
    requires Stride * Steps(count, Stride) <= |imageBytes|
    ensures |grays| == Steps(count, Stride)
    ensures forall t :: 0 <= t < |grays| ==> 0 <= grays[t] <= 85
  {
    var m := Steps(count, Stride);
    seq(m, t requires 0 <= t < m =>
      ByteGray(imageBytes[Stride * t], imageBytes[Stride * t + 1], imageBytes[Stride * t + 2]))
  }

  /** The byte offsets the loop visits: 0, 3, 6, … below width·height. */
  function Offsets(width: nat, height: nat): (ys: seq<nat>)
    ensures |ys| == Steps(width * height, Stride)
    ensures forall t :: 0 <= t < |ys| ==> ys[t] == Stride * t < width * height
  {
    Scan(width * height, Stride)
  }

  /**
   * One pass: after it, histogram[c] is the sum of the grays of the steps
   * whose byte offset falls in cell c and pixelN[c] their number.
   */
  method AccumulatePass(imageBytes: seq<U8>, width: nat, height: nat, numBlock: nat,
                        histogram: array<int>, pixelN: array<nat>)
    requires Stride * Steps(width * height, Stride) <= |imageBytes|
    requires 0 < numBlock && numBlock * numBlock <= NGrayBlock
    requires histogram.Length == NGrayBlock && pixelN.Length == NGrayBlock
    requires forall j :: 0 <= j < NGrayBlock ==> histogram[j] == 0 && pixelN[j] == 0
    modifies histogram, pixelN
    ensures var cells := Cells(Offsets(width, height), width, height, numBlock);
      var grays := ByteGrays(imageBytes, width * height);
      (forall c :: 0 <= c < NGrayBlock ==> histogram[c] == Sum(cells, grays, c))
      && (forall c :: 0 <= c < NGrayBlock ==> pixelN[c] == Count(cells, c))
  {
    var pixelCnt := width * height;
    ghost var cells := Cells(Offsets(width, height), width, height, numBlock);
    ghost var grays := ByteGrays(imageBytes, pixelCnt);
    ghost var t := 0;
    var y := 0;
    while y < pixelCnt
      invariant t <= |cells| && y == Stride * t
      invariant forall c :: 0 <= c < NGrayBlock ==> histogram[c] == Sum(cells[..t], grays[..t], c)
      invariant forall c :: 0 <= c < NGrayBlock ==> pixelN[c] == Count(cells[..t], c)
    {
      VisitOffset(imageBytes, width, height, numBlock, histogram, pixelN, y, t);
      y := y + Stride;
      t := t + 1;
    }
    StepInside(pixelCnt, Stride, t);
    assert cells[..t] == cells && grays[..t] == grays;
  }

  /**
   * The loop body: read the three bytes at offset y = 3t and add their gray
   * to the cell of y; afterwards sums and counts cover steps 0 … t.
   */
  method VisitOffset(imageBytes: seq<U8>, width: nat, height: nat, numBlock: nat,
                     histogram: array<int>, pixelN: array<nat>, y: nat, ghost t: nat)
    requires Stride * Steps(width * height, Stride) <= |imageBytes|
    requires 0 < numBlock && numBlock * numBlock <= NGrayBlock
    requires histogram.Length == NGrayBlock && pixelN.Length == NGrayBlock
    requires y == Stride * t && y < width * height
    requires var cells := Cells(Offsets(width, height), width, height, numBlock);
      var grays := ByteGrays(imageBytes, width * height);
      t < |cells|
      && (forall c :: 0 <= c < NGrayBlock ==> histogram[c] == Sum(cells[..t], grays[..t], c))
      && (forall c :: 0 <= c < NGrayBlock ==> pixelN[c] == Count(cells[..t], c))
    modifies histogram, pixelN
    ensures var cells := Cells(Offsets(width, height), width, height, numBlock);
      var grays := ByteGrays(imageBytes, width * height);
      (forall c :: 0 <= c < NGrayBlock ==> histogram[c] == Sum(cells[..t + 1], grays[..t + 1], c))
      && (forall c :: 0 <= c < NGrayBlock ==> pixelN[c] == Count(cells[..t + 1], c))
  {
    ghost var cells := Cells(Offsets(width, height), width, height, numBlock);
    ghost var grays := ByteGrays(imageBytes, width * height);
    ScanStepFacts(imageBytes, width, height, numBlock, t);
    var blue := imageBytes[y + 0];
    var green := imageBytes[y + 1];
    var red := imageBytes[y + 2];
    var grayResult := ByteGray(blue, green, red);
    var indexHist := CellIndex(y, width, height, numBlock);
    assert grayResult == grays[t] && indexHist == cells[t];
    PassStep(cells, grays, t);
    AddSample(histogram, pixelN, indexHist, grayResult);
  }

  /** Step t of a pass, when still inside the loop, reads bytes 3t … 3t+2 and attributes their gray to the cell of offset 3t. */
  lemma ScanStepFacts(imageBytes: seq<U8>, width: nat, height: nat, numBlock: nat, t: nat)
    requires Stride * Steps(width * height, Stride) <= |imageBytes|
    requires 0 < numBlock && Stride * t < width * height
    ensures t < Steps(width * height, Stride) && Stride * t + 2 < |imageBytes|
    ensures Cells(Offsets(width, height), width, height, numBlock)[t] == CellIndex(Stride * t, width, height, numBlock)
    ensures ByteGrays(imageBytes, width * height)[t]
      == ByteGray(imageBytes[Stride * t], imageBytes[Stride * t + 1], imageBytes[Stride * t + 2])
  {
    StepInside(width * height, Stride, t);
  }

  /**
   * GetGrayBlock of generator.go: the 85 block values of the stride-3 scan,
   * slots [0,49) from the 7×7 pass and [49,85) from the 6×6 pass. The bytes
   * must cover the last visited offset plus 2, or the source panics.
   */
  method GetGrayBlock(imageBytes: seq<U8>, width: nat, height: nat) returns (block: seq<real>)
    requires Stride * Steps(width * height, Stride) <= |imageBytes|
    ensures block == GrayBlock(Offsets(width, height), ByteGrays(imageBytes, width * height), width, height)
  {
    var histogram := new int[NGrayBlock];
    var histogram2 := new real[NGrayBlock](_ => 0.0);
    var pixelN := new nat[NGrayBlock];
    ghost var ys := Offsets(width, height);
    ghost var grays := ByteGrays(imageBytes, width * height);
    for i := 0 to 2
      invariant forall k :: 0 <= k < NGrayBlock ==>
        histogram2[k] == if k < SecondPassOffset * i then BlockSlot(ys, grays, width, height, k) else 0.0
    {
      var numBlock := if i == 0 then 7 else 6;
      assert numBlock == NumBlock(i);
      ClearCounters(histogram, pixelN);
      AccumulatePass(imageBytes, width, height, numBlock, histogram, pixelN);
      StoreAverages(histogram, pixelN, histogram2, numBlock, SecondPassOffset * i);
    }
    block := histogram2[..];
  }

  // ---------------------------------------------------------------------------
  // Properties of GetGrayBlock

  /**
   * The loop visits every third byte offset below width·height, so in each
   * pass the counts add up to ceil(width·height / 3), not to width·height.
   */
  lemma PassCoversOffsets(width: nat, height: nat, pass: nat)
    requires pass < 2
    ensures var n := NumBlock(pass);
      CountTotal(Cells(Offsets(width, height), width, height, n), n * n) == Steps(width * height, Stride)
    ensures 3 * Steps(width * height, Stride) < width * height + 3
  {
    var n := NumBlock(pass);
    CountsCoverPass(Cells(Offsets(width, height), width, height, n), n * n);
  }

  /** Because of the uint8 wrap, every block value lies in [0, 85]. */
  lemma BlockBounded(imageBytes: seq<U8>, width: nat, height: nat, k: nat)
    requires Stride * Steps(width * height, Stride) <= |imageBytes|
    requires k < NGrayBlock
    ensures 0.0 <= GrayBlock(Offsets(width, height), ByteGrays(imageBytes, width * height), width, height)[k] <= 85.0
  {
    var ys := Offsets(width, height);
    var grays := ByteGrays(imageBytes, width * height);
    var pass := if k < SecondPassOffset then 0 else 1;
    var c := k - SecondPassOffset * pass;
    GrayBlockLayout(ys, grays, width, height, pass, c);
    AverageBounds(Cells(ys, width, height, NumBlock(pass)), grays, c, 0, 85);
  }
}
