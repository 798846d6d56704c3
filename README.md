# golobal image fingerprint — verified model of its integer core

golobal computes a perceptual hash of an image: 55 bits held in an int64. `ExtractGlobalHash`
resizes the image to 150×200 and then runs `ExtractRGB`, which packs the
pixels into three row-major `uint32` channel arrays. Next, `GetGrayBlock`
averages the gray values over a 7×7 and then a 6×6 grid of cells, giving
85 block values. `GetGlobalHash` projects these blocks onto 55 scores, and
`CalculateHashValue` sets one bit per positive score. A second copy of the
block and hash code, hash/generator/generator.go, reads an interleaved
blue-green-red byte buffer. Image files are dispatched to a decoder by
their lower-cased extension (`GetExtension`, `GetImage`).

This Dafny project models these parts:

- **the integer arithmetic of both `GetGrayBlock` variants**: cell sizes,
  clamped cell coordinates, per-cell sums and counts, and the 85-slot
  layout;
- **`ExtractRGB`'s row-major packing**;
- **the bit hasher**;
- **extension extraction and decoder choice**.

Modules:

- `Bits`: Go's `int64` bit operations on a 64-bit pattern held in a `nat`: `Bit`, `|` and the two's complement reading.
- `Hasher`: `CalculateHashValue`. The two Go files carry the same code (golobal.go:297-315 and hash/generator/generator.go:129-147), so it is modelled once.
- `Grid`: the pass arithmetic shared by both `GetGrayBlock` variants.
  - The specification function `GrayBlock` gives the 85 block values of a scan.
  - The zeroing and averaging loops are the methods `ClearCounters` and `StoreAverages`.
- `Golobal`: `ExtractRGB`, the `uint32` gray value, and golobal.go's `GetGrayBlock`.
- `Generator`: the stride-3 `GetGrayBlock` of hash/generator/generator.go.
  - It keeps the source's behaviour as written: the byte offset `y` doubles as the pixel position, and the `uint8` channel sum wraps modulo 256.
  - As a consequence, each pass visits ceil(W·H/3) offsets, and every block value is at most 85.
- `ImageFile`: `filepath.Ext` and `GetExtension` on '/'-separated paths, and the extension-to-decoder switch of `GetImage`.

Block sums and counts are exact integers and averages exact reals, where
the source uses float32 throughout. Scores enter the hasher only through
their sign.

## Model

| member | source | states |
|---|---|---|
| Hasher.CalculateHashValue | golobal.go:297-315 | Bit hashSize-1-i of the int64 result is set exactly when scores[i] > 0 (0 gives an unset bit). A bit shifted to position 64 or beyond is lost. For 0 <= hashSize < 64 the result lies in [0, 2^hashSize) and reads as the same non-negative int64. hashSize <= 0 gives 0. |
| Hasher.ShiftOne | golobal.go:306 | `1 << s` on an int64 has exactly bit s set when s < 64 and no bit otherwise. |
| Hasher.HashDependsOnlyOnSigns | golobal.go:304-312 | Two score vectors that agree on the sign (> 0 or not) of their first hashSize entries get the same hash value. |
| Hasher.GlobalHashWidth | golobal.go:46 | With HASH_SIZE = 55 the hash has no bit at or above 55, so it is a non-negative int64 below 2^55. |
| Bits.Int64Of | golobal.go:298 | A 64-bit pattern reads as an int64 in [-2^63, 2^63); it reads as itself exactly when it is below 2^63. |
| Bits.OrBit | golobal.go:311 | Bitwise OR has exactly the bits set in either operand. |
| Bits.OrBelowPow2 | golobal.go:311 | Or-ing two values below 2^n stays below 2^n. |
| Bits.NoHighBitsBelowPow2 | golobal.go:306-311 | A word with no bit set at or above n is below 2^n. |
| Bits.Pow2Bit | golobal.go:306 | 2^s has bit s and no other. |
| Bits.SameBitsSameValue | golobal.go:297-315 | Two values with the same bits are equal. |
| Grid.NumBlock | golobal.go:220-226 | Pass 0 uses a 7×7 grid (49 cells) and pass 1 a 6×6 grid (36 cells). Together they fill exactly 85 slots. |
| Grid.CellSize | golobal.go:228-235 | The cell extent is at least 1, so the later division never divides by zero. It is 1 when the image is narrower than the grid. |
| Grid.CellSizeFits | golobal.go:228-229 | When extent >= n, the cell size s is the largest with s·n <= extent < (s+1)·n. |
| Grid.CellCoord | golobal.go:245-255 | The clamped coordinate is below numBlock. |
| Grid.CellCoordSpec | golobal.go:245-255 | The clamped coordinate c satisfies c·size <= v. Unless it is the last cell, also v < (c+1)·size: the cell the position falls in, with the overflow folded into the last cell. |
| Grid.CellIndex | golobal.go:245-261 | Every position maps to a cell index in [0, n·n), so the source's "exception" branch can never fire. |
| Grid.CellIndexDecode | golobal.go:256 | `% n` and `/ n` of the cell index give back the clamped column and row coordinates. |
| Grid.CellCorner | golobal.go:245-256 | When W, H >= n, the pixel at the top-left corner of cell (cx, cy) lies inside the image and maps to cell cy·n + cx. |
| Grid.RowMajorDecode | golobal.go:245-246 | Packing (col, row) as row·W + col lands in [0, W·H), and `% W`, `/ W` recover col and row. |
| Grid.RowMajorEncode | golobal.go:245-246 | Every index below W·H is the packing of (y % W, y / W), and both lie inside the image. |
| Grid.Steps | hash/generator/generator.go:70 | The number of iterations of `y += stride` below count is ceil(count/stride). |
| Grid.StepInside | hash/generator/generator.go:70 | Step t is still inside the loop exactly when t < Steps(count, stride). |
| Grid.Scan | hash/generator/generator.go:70 | The t-th visited position is stride·t, below count. |
| Grid.Cells | golobal.go:242-262 | Every visited position is attributed a cell in [0, n·n). |
| Grid.GrayBlock | golobal.go:215-216 | The block vector has exactly 85 entries. |
| Grid.GrayBlockLayout | golobal.go:266-272 | Slot 49·pass + c holds the average of cell c of pass `pass`, the 7×7 pass in [0,49) and the 6×6 pass in [49,85). |
| Grid.PassStep | golobal.go:263-264 | Visiting one more position adds its gray to the sum of its own cell and 1 to that cell's count, and changes no other cell. |
| Grid.CountsCoverPass | golobal.go:242-265 | When all cells are below k, the counts of cells 0..k-1 add up to the number of visited positions: each position is counted exactly once. |
| Grid.CountPositive | golobal.go:264 | A cell that some visited position falls in has a positive count. |
| Grid.SumBounds | golobal.go:263 | If every gray lies in [lo, hi], a cell's sum lies in [lo·count, hi·count]. |
| Grid.AverageBounds | golobal.go:267-272 | An empty cell's block value is 0 (nothing is divided). A populated cell's block value lies between the smallest and largest gray. |
| Grid.UniformGrayBlock | golobal.go:263-272 | With a single gray value v, every block is 0 or v. |
| Grid.ClearCounters | golobal.go:237-240 | The first 85 sums and counts are zero before each pass, so the 6×6 pass does not see the 7×7 accumulations. |
| Grid.Average | golobal.go:269-270 | A populated cell's value times its count gives back its sum. A cell with count 0 has value 0, the value its slot keeps. |
| Grid.StoreAverages | golobal.go:267-272 | Slot offset+j gets sum/count for each populated cell j < n·n. A cell with count 0 leaves its slot unchanged, and no other slot changes. |
| Golobal.ExtractRGB | golobal.go:193-206 | The three arrays have W·H entries. Index y holds the channels of pixel (y % W, y / W). |
| Golobal.ExtractRow | golobal.go:199-202 | One row of the inner loop: entries row·W … row·W+W-1 receive their pixels, and earlier entries keep theirs. |
| Golobal.PackedPixel | golobal.go:200-201 | Pixel (col, row) is stored at row·W+col < W·H, and the index decoding GetGrayBlock uses gives that pixel back. |
| Golobal.Gray32 | golobal.go:244 | The gray is at most 0x5555_5555 under the uint32 wrap. Without wrap it is the truncated mean: 3·gray <= b+g+r < 3·gray+3. |
| Golobal.ChannelGray | golobal.go:244 | The uint32 sum of three 16-bit RGBA() channels cannot wrap, and the gray lies between the smallest and largest channel. |
| Golobal.AccumulatePass | golobal.go:242-265 | After a pass, histogram[c] and pixelN[c] are the sum and count of cell c over all pixels below W·H. |
| Golobal.GetGrayBlock | golobal.go:208-276 | The result is the 85-slot block vector `GrayBlock` of the scan of every pixel index with its uint32 gray. |
| Golobal.PassCoversImage | golobal.go:242-265 | In each pass the per-cell counts add up to exactly W·H. |
| Golobal.EveryCellPopulated | golobal.go:228-264 | When W, H >= n, no cell of the n×n pass is empty. |
| Golobal.ResizedImageCoverage | golobal.go:47-48 | On the 150×200 image each pass attributes exactly 30000 pixels, and every cell of both grids gets at least one. |
| Golobal.UniformImageGrayBlock | golobal.go:208-276 | For an image at least 7×7 whose pixels all have gray v, all 85 block values equal v. This holds in exact arithmetic, not for the float32 program. |
| Generator.ByteGray | hash/generator/generator.go:72-76 | The uint8 sum wraps, so the gray is at most 85. It is the truncated mean exactly when b+g+r < 256. |
| Generator.ByteGrays | hash/generator/generator.go:70-76 | One gray in [0, 85] per visited offset, read from bytes y, y+1, y+2. |
| Generator.Offsets | hash/generator/generator.go:70 | The visited byte offsets are 0, 3, 6, … below W·H. |
| Generator.AccumulatePass | hash/generator/generator.go:70-97 | After a pass, histogram[c] and pixelN[c] are the sum and count of cell c over the visited byte offsets. The offset itself is placed in the grid. The bytes must cover the last visited offset + 2. |
| Grid.AddSample | hash/generator/generator.go:95-96 | The sample's gray is added to the sum of its cell and the cell's count goes up by one. No other cell changes. |
| Generator.VisitOffset | hash/generator/generator.go:71-96 | One step of the scan at offset y = 3t: it adds the wrapped gray of bytes y, y+1 and y+2 to the cell of y and counts it there, so sums and counts then cover steps 0 … t. |
| Generator.GetGrayBlock | hash/generator/generator.go:36-108 | The result is the 85-slot block vector `GrayBlock` of the stride-3 offset scan with its wrapped uint8 gray. |
| Generator.PassCoversOffsets | hash/generator/generator.go:70-97 | In each pass the counts add up to ceil(W·H/3), not W·H. |
| Generator.BlockBounded | hash/generator/generator.go:99-104 | Every block value lies in [0, 85]. |
| ImageFile.ToLower | golobal.go:176 | Every ASCII upper-case letter becomes its lower-case letter (code + 32), and every other character is unchanged. |
| ImageFile.Ext | golobal.go:176 | `filepath.Ext` is empty or starts with '.'. |
| ImageFile.ExtShape | golobal.go:176 | `filepath.Ext` returns a suffix of the path that is empty or starts with its only '.', and contains no '/'. |
| ImageFile.ExtEmpty | golobal.go:176 | The extension is empty exactly when the final path element has no '.'. |
| ImageFile.ExtOfFinalElement | golobal.go:176 | A directory prefix does not change the extension. |
| ImageFile.ExtToLower | golobal.go:176 | Lower-casing commutes with taking the extension. |
| ImageFile.LowerExtIsSuffix | golobal.go:176 | The lower-cased extension is the matching suffix of the lower-cased path. |
| ImageFile.GetExtension | golobal.go:175-177 | The extension is empty or starts with '.', has no '/', no upper-case letter and no further '.', and is a suffix of the lower-cased path. It is empty exactly when no '.' lies in the final path element. |
| ImageFile.GetExtensionIgnoresCase | golobal.go:175-177 | Lower-casing the path first does not change the extension. |
| ImageFile.ToLowerIdempotent | golobal.go:176 | Lower-casing twice equals lower-casing once. |
| ImageFile.DecoderFor | golobal.go:157-172 | JPEG is chosen exactly when the extension is none of .bmp, .tiff, .gif and .png. |
| ImageFile.SelectDecoder | golobal.go:157-172 | BMP, TIFF, GIF and PNG are each chosen for exactly their own extension, and .jpeg and .jpg select JPEG. |
| ImageFile.SelectDecoderInvariance | golobal.go:157-177 | The decoder choice ignores letter case and any directory part of the path. |

## Left out

- Downloading, temp files, `os.Open` and closing files (golobal.go:97-139, 150-155) are I/O.
- `GetPath`'s `url.Parse` (golobal.go:141-148) is a foreign library. `ExtractHashInfo` and `HashInfo` only wire the I/O together.
- Image decoding (`bmp`, `tiff`, `gif`, `png`, `jpeg`) is modelled only as the decoder chosen. Its error results are not modelled.
- `resize.Resize` (golobal.go:181) and the colour conversion of `image.At(...).RGBA()` (golobal.go:201) are external.
  - `ExtractRGB` takes the pixel accessor as a function parameter returning four 16-bit channels.
  - Image bounds are taken to start at (0, 0), with `Max.X`, `Max.Y` as width and height.
- `GetGlobalHash`'s float32 projection onto the `MEAN` constants and `symmetric.METRIC` (golobal.go:278-295, hash/generator/generator.go:110-127) is floating point, and the matrix is not part of this model.
  - The hasher takes the scores as reals and only uses their sign.
  - NaN scores are not modelled.
- Golobal.GetGrayBlock and Generator.GetGrayBlock do not model float32 rounding. Sums are exact integers, counts exact naturals, and averages exact reals.
  - The source accumulates in float32. In golobal.go a gray is a 16-bit `RGBA()` value, up to 0xffff. A 7×7 cell of the 150×200 image holds 588 to 768 pixels, so its sum can reach about 5·10^7, well above 2^24. Those float32 sums are rounded, and a block value can then differ from the exact average. For example, a uniform white image need not give exactly 65535 in every slot.
  - The division result is rounded to float32.
- ImageFile.ToLower lower-cases ASCII letters only. Go's `strings.ToLower` also maps non-ASCII letters.
- ImageFile.Ext uses '/' as the only separator, as `filepath` does on Unix. Windows volume names and '\' are not modelled.
- Hasher.CalculateHashValue requires hashSize <= |scores|. The source panics on a shorter slice.
- Generator.GetGrayBlock requires the byte buffer to cover the last visited offset + 2. The source panics otherwise.
- application.go (HTTP service), main.go (demo) and src/com/navercorp/umon/bo/ImageGlobalHashGenerator.go (an empty stub) are not part of this model.
