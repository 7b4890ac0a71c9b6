# mcpe_viz utilities: a Dafny model

This project models the sequential logic of `mcpe_viz.util.h` from mcpe_viz, a viewer for Minecraft
Pocket Edition worlds. It covers five pieces:

- **PngTiler::doTile** cuts a rendered map image into fixed-size PNG tiles. It holds one band of tile
  buffers at a time. A band is one row of tiles, `tileHeight` source rows high.
  - Modules `TileSpec` (what the tiles should be) and `Tiler` (the class and its loops).
  - The source raster is a `SourceImage` value: the width, height, colour type and scan-lines the
    PNG decoder reports. Each scan-line must hold at least the width * bpp bytes that the copy reads;
    only that prefix of a scan-line is used.
  - Each tile buffer is an `array<byte>`. `memset` and `memcpy` are loops over those arrays.
  - Each `png_write_image` + `close` pair becomes a `TileFile` appended to `doTile`'s result
    sequence. A `TileFile` holds the file name, the header fields and the scan-lines the writer's row
    pointers select.
  - `TileSpec` states what the whole run should produce: the tile grid, band by band and left to
    right. Three lemmas prove the key facts about it:
    - every source byte reappears at its place in its tile (`Reassembly`);
    - every byte outside the image is zero (`TilePixel`);
    - no two tiles share a file name (`TileNameInjective`).
  - `DoTile` is proved to write exactly that grid.
- **JavaRandom** emulates `java.util.Random` with `int64_t` arithmetic (module `Random`). It covers
  the 48-bit seed, the scrambled `setSeed`, `next(bits)` and `nextInt(bound)`. Modelled explicitly:
  - the two's-complement wrap of the seed product;
  - the 48-bit mask;
  - the narrowing to `int32_t`.
- **Histogram** is a `std::map<int32_t, int32_t>` of counts (module `Histograms`).
  - The map is modelled as its entries in ascending key order, which is std::map's iteration order.
  - `add` searches the key-ordered entries: the entry with that key has its count incremented, or a
    count of 1 is inserted at the key's place.
  - `getTotal` is the running `int32_t` sum.
  - `sort` orders by count, ascending or descending.
- **ColorInfo** holds a named colour (module `Colors`). `calcHSL` splits it into its red, green and
  blue channels.
- **Logger::msg** decides from the level mask whether a message is written, and writes it with its
  severity prefix (module `Logging`).
  - The text written to `fpStdout` is a sequence of strings.
  - `exit(-1)` becomes the result `Exited(-1)`.

Shared modules:

- `Arith`: fixed-width integers, Euclidean division facts, ceiling division and powers of two.
- `Decimal`: `%d` formatting with its inverse.
- `Wrappers`: `Option`.

The code of the header decides the model where the system's design documentation differs from it:

- The documentation describes an `InvalidParameter` error for non-positive tile sizes. `doTile` has
  no such check and divides by the tile sizes, so `DoTile` requires them to be positive.
- The documentation describes an I/O or format failure that aborts tiling. `doTile` ignores the
  status that `PngWriter::init` returns. When init fails, `open` returns early (mcpe_viz.util.h:200,
  :215 or :222) before it allocates `row_pointers`. That pointer is then still null on the first
  band (set at :183), or the one freed by the previous `close` (:268) on later bands, and the
  row-pointer loop at :468 writes through it. That is undefined behaviour, not a return of 0. The
  model assumes every init succeeds. `DoTile` returns 0, and its writers always open.
- The documentation says the output directory is created if absent. `doTile` does not do that, and
  neither does the model.

## Model

| member | source | states |
|---|---|---|
| Tiler.PngTiler.DoTile | mcpe_viz.util.h:421-515 | returns 0, and the tiles written are exactly the specified grid: ceil(srcH/tileHeight) bands of ceil(srcW/tileWidth) tiles, with the tiles of each band left to right; the band counter ends at ceil(srcH/tileHeight) |
| Tiler.PngTiler.constructor | mcpe_viz.util.h:414-419 | stores file name, tile width, tile height and output directory |
| Tiler.PngTiler.NewBuffers | mcpe_viz.util.h:442-447 | allocates one fresh buffer of tileWidth*tileHeight*bpp bytes per tile column, no two buffers aliased |
| Tiler.PngTiler.OpenBand | mcpe_viz.util.h:455-472 | after a band starts, every column's writer is open on tile (tileCounterY, i) and every buffer is cleared |
| Tiler.PngTiler.OpenTile | mcpe_viz.util.h:458-469 | one column: the writer gets the tile's name, description, size, alpha flag and row pointers ty*tileWidth*bpp; the buffer is all zero; other writers unchanged |
| Tiler.PngTiler.StartRow | mcpe_viz.util.h:455-472 | at a band's first scan-line the flag is set, the band counter is incremented and the band's writers and zeroed buffers are opened; within a band they are left as they are |
| Tiler.PngTiler.EndRow | mcpe_viz.util.h:486-493 | after the last scan-line of a band its tiles are appended to those written and the flag is cleared and every writer is closed; otherwise the band stays open with one more scan-line copied |
| Tiler.PngTiler.CopyPixel | mcpe_viz.util.h:479-483 | one pixel of the copy loop: its bytes go to their slot in the buffer of tile column sx/tw and every other buffer keeps its contents |
| Tiler.PixelSlot | mcpe_viz.util.h:476-482 | pixel (sx, sy) lies in scan-line sy%th of band sy/th and at byte (sx%tw)*bpp of tile column sx/tw, inside a tile scan-line and inside the source scan-line |
| Tiler.PngTiler.CopyRow | mcpe_viz.util.h:474-483 | after scan-line sy is copied, every column buffer holds the band's rows up to and including sy, and zero elsewhere |
| Tiler.PngTiler.WriteBand | mcpe_viz.util.h:486-503 | a finished band writes exactly that band's tiles, left to right, and closes every writer |
| Tiler.InitWriter | mcpe_viz.util.h:461 | PngWriter::init as doTile calls it: an open writer with the given name, description, size and alpha flag, and numRowPointers row pointers |
| Tiler.ScanBytes | mcpe_viz.util.h:489 | a scan-line of the written image is width * channels bytes, 3 or 4 channels |
| Tiler.WriteImage | mcpe_viz.util.h:489-490 | png_write_image + close: the tile file keeps the writer's name, description, size and alpha flag, and scan-line ty is the ScanBytes bytes that row pointer ty addresses |
| Tiler.TileWriter | mcpe_viz.util.h:461-469 | the writer doTile sets up for tile (band, col): open, with tileHeight row pointers |
| Tiler.MemSet | mcpe_viz.util.h:464 | the first n bytes become the value; the rest are unchanged |
| Tiler.MemCpy | mcpe_viz.util.h:482 | the destination becomes old contents with n source bytes spliced in at the offset |
| Tiler.Splice | mcpe_viz.util.h:482 | same length; bytes inside the copied range come from the piece, all others are unchanged |
| Tiler.CopyOffset | mcpe_viz.util.h:476-482 | the memcpy offset ((sy%th)*tw + sx%tw)*bpp is scan-line sy%th, pixel sx%tw of the tile buffer |
| Tiler.CopyInBounds | mcpe_viz.util.h:440-482 | for sx < srcW the tile column sx/tw is below ceil(srcW/tw); the copied bpp bytes lie inside the tw*th*bpp buffer and inside the source row |
| Tiler.StageSameColumn | mcpe_viz.util.h:479-482 | copying pixel (sx, sy) into column sx/tw is the next step of the staged buffer, and it stays in bounds |
| Tiler.StageOtherColumn | mcpe_viz.util.h:479-482 | copying pixel sx leaves every other column's buffer unchanged |
| Tiler.StagedUnaffected | mcpe_viz.util.h:479-482 | copying bytes outside a tile's column span leaves its staged buffer unchanged |
| Tiler.StagedCopy | mcpe_viz.util.h:482 | one memcpy turns the staged state before a byte range into the staged state after it |
| Tiler.StagedFresh | mcpe_viz.util.h:464 | a zeroed buffer is the staged state at the start of its band |
| Tiler.JobFresh | mcpe_viz.util.h:464 | a zeroed buffer is the staged state at the start of band b of the job |
| Tiler.StagedRowDone | mcpe_viz.util.h:479-483 | a fully copied scan-line is the same state as the start of the next scan-line |
| Tiler.JobRowDone | mcpe_viz.util.h:479-483 | the same for the job's buffers |
| Tiler.StagedScanLine | mcpe_viz.util.h:467-469 | once all covered rows are copied, buffer scan-line ty is the window of the source row under it, zero below the image |
| Tiler.JobScanLine | mcpe_viz.util.h:467-469 | once a band is full or the image has ended, buffer scan-line ty equals scan-line ty of the specified tile |
| Tiler.WriteTile | mcpe_viz.util.h:489-490 | png_write_image through the tile's row pointers, on a finished buffer, yields the specified tile |
| Tiler.ColumnsDisjoint | mcpe_viz.util.h:480-482 | the bytes of pixel sx lie outside every tile column other than sx/tw |
| Tiler.PixelSpan | mcpe_viz.util.h:480-482 | pixel sx splits into tile column sx/tw and offset (sx%tw)*bpp, which fits in a tile scan-line |
| Tiler.RowBytesPositive | mcpe_viz.util.h:446 | a tile scan-line has at least tileWidth bytes, and the buffer size is tileHeight scan-lines |
| TileSpec.BytesPerPixel | mcpe_viz.util.h:434-439 | bpp is 4 exactly for colour type RGBA, and 3 for every other colour type, whatever that type's real pixel size |
| TileSpec.ShortRowOverRead | mcpe_viz.util.h:435-437 | a scan-line shorter than width * bpp bytes (any raster whose pixels take fewer than bpp bytes: grey and palette at every bit depth, 8-bit grey-alpha) makes the copy of the last pixel end past the scan-line |
| TileSpec.TileJob.NumCols | mcpe_viz.util.h:440 | numPngW: the least number of tileWidth-wide columns covering the width |
| TileSpec.TileJob.NumBands | mcpe_viz.util.h:449-503 | the least number of tileHeight-high bands covering the height |
| TileSpec.TileJob.Rows | mcpe_viz.util.h:474-482 | the bytes doTile reads of each scan-line: a prefix of width * bpp bytes |
| TileSpec.TileName | mcpe_viz.util.h:458-459 | the name starts with `dirOutput/baseName.` and ends in `.png` |
| TileSpec.TileJob.Tile | mcpe_viz.util.h:458-469 | every tile is tileWidth x tileHeight with full-width scan-lines, and has alpha exactly when bpp is 4 |
| TileSpec.TileJob.TileRow | mcpe_viz.util.h:464-482 | a tile scan-line is RowBytes long |
| TileSpec.TileJob.BandTiles | mcpe_viz.util.h:488-491 | a band has one tile per tile column |
| TileSpec.TileCount | mcpe_viz.util.h:440-503 | the grid has NumBands*NumCols tiles, and NumCols and NumBands are the least tile counts covering the image |
| TileSpec.GridLength | mcpe_viz.util.h:486-503 | after b bands, the grid holds b*NumCols tiles |
| TileSpec.GridAt | mcpe_viz.util.h:452-503 | tile (band, col) sits at position band*NumCols + col |
| TileSpec.TilePixel | mcpe_viz.util.h:464-482 | byte c of pixel tx in scan-line ty of tile (band, col) equals the source byte of pixel (col*tw+tx, band*th+ty) when that pixel is inside the image, and 0 otherwise |
| TileSpec.SourcePixelInTile | mcpe_viz.util.h:476-482 | source pixel (x, y) is pixel x%tw of scan-line y%th of tile (y/th, x/tw) |
| TileSpec.Reassembly | mcpe_viz.util.h:452-503 | every source byte reappears in the grid, in the tile at position (y/th)*NumCols + x/tw |
| TileSpec.PixelArith | mcpe_viz.util.h:482 | byte c of pixel tx of column col is byte c of source pixel col*tw+tx, and it is inside the row exactly when that pixel is |
| TileSpec.PixelByteBound | mcpe_viz.util.h:482 | byte c of pixel x is below w*bpp exactly when x < w |
| TileSpec.ColumnSplit | mcpe_viz.util.h:480-482 | (x/tw)*(tw*bpp) + (x%tw)*bpp == x*bpp |
| TileSpec.Zeros | mcpe_viz.util.h:464 | n bytes, all zero |
| TileSpec.Window | mcpe_viz.util.h:482 | a window of exactly n bytes |
| TileSpec.TileNameInjective | mcpe_viz.util.h:458-459 | equal tile names imply the same band and column, so no tile file is overwritten |
| TileSpec.SplitAtDot | mcpe_viz.util.h:458-459 | two equal names of the form digits '.' rest agree on the digits and on the rest |
| TileSpec.FirstDotAfterDigits | mcpe_viz.util.h:458-459 | the first '.' after a run of digits comes right after the digits |
| TileSpec.FirstDot | mcpe_viz.util.h:458-459 | the index is at most the length |
| Decimal.NatToDecimal | mcpe_viz.util.h:458-459 | the %d spelling of a number is non-empty and all digits |
| Decimal.ParseNatToDecimal | mcpe_viz.util.h:458-459 | parsing the %d spelling gives the number back |
| Decimal.NatToDecimalInjective | mcpe_viz.util.h:458-459 | different numbers are printed differently |
| Decimal.DigitRoundTrip | mcpe_viz.util.h:458-459 | a digit character gives its digit value back |
| Decimal.DigitChar | mcpe_viz.util.h:458-459 | yields a digit character |
| Decimal.DigitValue | mcpe_viz.util.h:458-459 | yields a value below 10 |
| Arith.CeilDiv | mcpe_viz.util.h:440 | the least count c with c*d >= n, which is what ceil((double)n/d) gives for int inputs |
| Arith.CeilDivCovers | mcpe_viz.util.h:480 | every column x < n falls in a tile column below ceil(n/d) |
| Arith.CeilDivExact | mcpe_viz.util.h:486-503 | when the height divides evenly, the bands are height/th |
| Arith.CeilDivInexact | mcpe_viz.util.h:497-503 | otherwise there is one more band, the trailing partial one |
| Arith.NextRow | mcpe_viz.util.h:486 | whether (sy+1)%th == 0 decides whether scan-line sy+1 starts a new band or continues the current one |
| Arith.ExactDiv | mcpe_viz.util.h:455-471 | a row at which a band starts is band*tileHeight |
| Arith.ModDiv | mcpe_viz.util.h:547-548 | masking to the low a*b and dividing by a is dividing by a and masking to the low b |
| Arith.ToInt32 | mcpe_viz.util.h:602 | the result equals x modulo 2^32, and equals x when x fits in 32 bits |
| Arith.ToInt64 | mcpe_viz.util.h:596 | the result equals x modulo 2^64, and equals x when x fits in 64 bits |
| Random.XorBits | mcpe_viz.util.h:591 | the exclusive or of the low n bits is below 2^n |
| Random.XorTwice | mcpe_viz.util.h:591 | applying the exclusive or with the same b twice gives back a |
| Random.Scramble | mcpe_viz.util.h:590-592 | the new seed lies in [0, 2^48) |
| Random.ScrambleValue | mcpe_viz.util.h:591 | on a 48-bit seed, the mask changes nothing before the exclusive or |
| Random.ScrambleTwice | mcpe_viz.util.h:590-592 | scrambling is its own inverse on 48-bit seeds |
| Random.WrapKeepsLow48 | mcpe_viz.util.h:596 | the 64-bit wrap-around never changes the low 48 bits |
| Random.NextSeed | mcpe_viz.util.h:596 | the new seed lies in [0, 2^48) and equals (seed*0x5DEECE66D + 0xB) mod 2^48, even though the int64 product wraps |
| Random.Output | mcpe_viz.util.h:598-602 | next(bits) is 0 for bits <= 0, and lies in [0, 2^bits) for 1 <= bits <= 31 |
| Random.ShiftRange | mcpe_viz.util.h:600 | the shifted seed is 0 for bits <= 0, and below 2^bits <= 2^31 for 1 <= bits <= 31 |
| Random.OutputValue | mcpe_viz.util.h:600-602 | for 1 <= bits <= 31 the narrowing to int32_t changes nothing |
| Random.OutputPrefix | mcpe_viz.util.h:594-603 | next(k) is the top k bits of next(31) of the same seed |
| Random.ShiftTwice | mcpe_viz.util.h:600 | shifting by a, then by b, is shifting by a+b |
| Random.LowBit | mcpe_viz.util.h:606 | bound & -bound: at most n, and for n > 0 a power of two that divides n and leaves an odd quotient, which is the lowest set bit |
| Random.DoublePowerOfTwo | mcpe_viz.util.h:606 | twice a power of two is a power of two |
| Random.DoubleDivides | mcpe_viz.util.h:606 | if h divides n / 2 for an even n, then 2 * h divides n |
| Random.LowBitTest | mcpe_viz.util.h:606 | (bound & -bound) == bound holds exactly when bound is 0 or a power of two |
| Random.ProductRange | mcpe_viz.util.h:607 | bound*next(31) fits in int64 for bound <= 2^31, and its shift by 31 is below bound |
| Random.Bounded | mcpe_viz.util.h:605-616 | nextInt(0) is 0; for 0 < bound <= 2^31, and for every non-power-of-two bound > 0, the result lies in [0, bound) |
| Random.PowerShift | mcpe_viz.util.h:607 | (2^k * b) >> 31 == b >> (31-k) |
| Random.BoundedPowerOfTwo | mcpe_viz.util.h:606-607 | nextInt(2^k) equals next(k) for 1 <= k <= 31, and nextInt(1) is 0 |
| Random.RetryAsWritten | mcpe_viz.util.h:613 | the do-while test in int64: never true when 0 <= val <= bits and bound >= 1 |
| Random.RetryJava | mcpe_viz.util.h:613 | Java's test with 32-bit wrap: when the exact sum lies in [0, 2^32), it is true exactly when the sum reaches 2^31 |
| Random.RetryAsWrittenNever | mcpe_viz.util.h:609-614 | for bound >= 1, the do-while condition as written is never true, so nextInt draws exactly once |
| Random.RetryJavaExact | mcpe_viz.util.h:613 | with Java's 32-bit wrap, the condition holds exactly for draws at or past the last whole multiple of bound below 2^31 |
| Random.LastWholeMultiple | mcpe_viz.util.h:613 | the next multiple after b crosses 2^31 exactly when b is at or past the last multiple below 2^31 |
| Random.Int32Sign | mcpe_viz.util.h:613 | a value in [0, 2^32) is negative as an int32 exactly from 2^31 on |
| Random.RetryDiffers | mcpe_viz.util.h:609-614 | for nextInt(10), the draw 2147483647 is kept as written and rejected by Java |
| Random.JavaRandom.SetSeed | mcpe_viz.util.h:590-592 | the seed becomes the scrambled value, inside [0, 2^48) |
| Random.JavaRandom.Next | mcpe_viz.util.h:594-603 | the seed advances by one LCG step and stays in [0, 2^48); the result is the top bits of the new seed |
| Random.JavaRandom.NextInt | mcpe_viz.util.h:605-616 | one LCG step, and the result is Bounded of the new seed, so it lies in [0, bound) for the bounds named there |
| Random.JavaRandom.NextIntJava | mcpe_viz.util.h:609-614 | with Java's retry test, a returned value lies in [0, bound), is the last draw mod bound, and comes from a draw below the last whole multiple |
| Histograms.Histogram.HasKey | mcpe_viz.util.h:629-631 | has_key(k) holds exactly when k is a key of the map |
| Histograms.Bump | mcpe_viz.util.h:633-639 | the new count of an added key: 1 for a new key, one more for a count below INT32_MAX, and -2^31 after INT32_MAX |
| Histograms.Lookup | mcpe_viz.util.h:629-631 | has_key: a count is found exactly when the key is among the map's keys |
| Histograms.Added | mcpe_viz.util.h:633-639 | after add(k), keys stay strictly ascending and the key set gains exactly k |
| Histograms.AddedLookup | mcpe_viz.util.h:633-639 | add(k) raises k's count by one (a new key starts at 1) and leaves every other key's count unchanged |
| Histograms.AddedSum | mcpe_viz.util.h:633-647 | add(k) changes the sum of counts by exactly the change in k's count |
| Histograms.FromKeys | mcpe_viz.util.h:633-639 | adding keys one by one to an empty map keeps strictly ascending keys |
| Histograms.FromKeysCount | mcpe_viz.util.h:633-639 | while no count passes INT32_MAX, each key's count is the number of times it was added, and it is present exactly when it was added |
| Histograms.FromKeysTotal | mcpe_viz.util.h:633-647 | the counts then add up to the number of add calls |
| Histograms.SumAppend | mcpe_viz.util.h:643-645 | the sum over two runs of entries is the sum of their sums |
| Histograms.MultiplicityBound | mcpe_viz.util.h:633-639 | no key occurs more often than the length of the key sequence |
| Histograms.KeysCons | mcpe_viz.util.h:629-631 | the keys of a non-empty entry sequence are its first key and the keys of the rest |
| Histograms.LookupCons | mcpe_viz.util.h:629-631 | find checks the first entry, then the rest |
| Histograms.BelowFirst | mcpe_viz.util.h:633-639 | a key below the first key of ascending entries is absent |
| Histograms.ConsAscending | mcpe_viz.util.h:633-639 | an entry with a smaller key can go in front and keep key order |
| Histograms.WrapAdd | mcpe_viz.util.h:644 | int32 running sums agree with the exact sum modulo 2^32 |
| Histograms.Int32Determined | mcpe_viz.util.h:644 | an int32 is determined by its value modulo 2^32 |
| Histograms.Insert | mcpe_viz.util.h:652-656 | insertion adds exactly that entry to the multiset of entries |
| Histograms.InsertOrdered | mcpe_viz.util.h:652-656 | inserting into an ordered sequence keeps it ordered |
| Histograms.ConsOrdered | mcpe_viz.util.h:652-656 | an entry that may precede all others can head an ordered sequence |
| Histograms.FirstPrecedes | mcpe_viz.util.h:652-656 | the head of an ordered sequence may precede everything that follows it after an insertion |
| Histograms.SortByCount | mcpe_viz.util.h:649-675 | the result is a permutation of the entries, ordered by count with compare_less_ or compare_more_ |
| Histograms.Histogram.constructor | mcpe_viz.util.h:625-627 | the map starts empty |
| Histograms.Histogram.Add | mcpe_viz.util.h:633-639 | the map is well formed after the call, and its entries are those of Added |
| Histograms.Histogram.GetTotal | mcpe_viz.util.h:641-647 | the total is the sum of all counts wrapped to int32, and is exactly the sum when the sum fits |
| Histograms.Histogram.Sort | mcpe_viz.util.h:649-675 | returns a permutation of the entries, ascending by count for order <= 0 and descending otherwise |
| Colors.Red | mcpe_viz.util.h:547 | (color & 0xFF0000) >> 16: the colour modulo 2^24 divided by 2^16, a byte |
| Colors.Green | mcpe_viz.util.h:548 | (color & 0xFF00) >> 8: the colour modulo 2^16 divided by 2^8, a byte |
| Colors.Blue | mcpe_viz.util.h:549 | color & 0xFF: a byte |
| Colors.PackLow24 | mcpe_viz.util.h:547-549 | bytes 2, 1 and 0 of a colour, weighted back, are the colour modulo 2^24 |
| Colors.Rgb | mcpe_viz.util.h:547-549 | packing three bytes gives a colour in [0, 2^24) |
| Colors.ChannelsAreBytes | mcpe_viz.util.h:547-549 | r, g and b each lie in [0, 255] for every int32 colour, negative ones included |
| Colors.ChannelsPackBack | mcpe_viz.util.h:547-549 | repacking the channels gives the colour modulo 2^24, and the colour itself when it is 0xRRGGBB |
| Colors.RgbChannels | mcpe_viz.util.h:547-549 | unpacking a packed colour gives back its channels |
| Colors.ColorInfo.constructor | mcpe_viz.util.h:538-542 | stores the name and colour, and the channels are those of the colour |
| Colors.ColorInfo.CalcHsl | mcpe_viz.util.h:546-558 | returns 0; r, g and b become the colour's channels, each in [0, 255]; name and colour are unchanged |
| Logging.Cares | mcpe_viz.util.h:124 | the filter is one mask test: the level shares a bit with the mask with the fatal bit added |
| Logging.Prefix | mcpe_viz.util.h:139-143 | the fatal prefix exactly for fatal levels; always one of the three prefixes or none |
| Logging.FatalAlwaysKept | mcpe_viz.util.h:124-143 | a fatal error passes the filter under any mask and gets the fatal prefix |
| Logging.DefaultMaskKeeps | mcpe_viz.util.h:80-81 | the default mask keeps a message exactly when it has a bit outside kLogDebug below 2^16 |
| Logging.QuietMaskKeeps | mcpe_viz.util.h:82 | the quiet mask keeps exactly warnings, errors and fatal errors |
| Logging.EmptyMaskKeeps | mcpe_viz.util.h:124 | with an empty mask only fatal errors get through |
| Logging.PrefixBySeverity | mcpe_viz.util.h:139-143 | the most severe bit picks the prefix: error before warning; no prefix without a warning, error or fatal bit |
| Logging.Logger.constructor | mcpe_viz.util.h:93-95 | the default mask, no streams, nothing written |
| Logging.Logger.Init | mcpe_viz.util.h:97-101 | resets the mask to kLogDefault and both streams to null, and changes nothing else |
| Logging.Logger.SetFlush | mcpe_viz.util.h:103-105 | sets the flush flag only |
| Logging.Logger.SetLogLevelMask | mcpe_viz.util.h:107-109 | sets the mask only |
| Logging.Logger.SetStdout | mcpe_viz.util.h:111-113 | sets the stdout stream only |
| Logging.Logger.SetStderr | mcpe_viz.util.h:115-117 | sets the stderr stream only |
| Logging.Logger.Msg | mcpe_viz.util.h:122-161 | an ignored message, or one with no stdout, returns -1 and writes nothing; a kept one writes its prefix and text and returns 0, except that a fatal error also writes the exit notice and exits with -1 |

## Left out

- PngReader and PngWriter internals: fopen, the libpng structures, setjmp/abort, addText and
  png_write_end are not modelled. Decoding is the `SourceImage` parameter of `DoTile`.
  `PngWriter::init` is modelled as always succeeding. A failed init is not modelled: `doTile`
  ignores the status, and the row-pointer loop at mcpe_viz.util.h:468 then writes through a null
  `row_pointers` (first band) or a freed one (later bands).
  `png_write_image` + `close` is modelled as `WriteImage`.
- Tiler.PngTiler.DoTile: only rasters whose scan-lines hold at least width * bpp bytes are modelled.
  These are the rasters whose pixels take at least bpp bytes: 8- and 16-bit RGB and RGBA, and
  16-bit grey-alpha. Of these the copy reads the first width * bpp bytes of each scan-line. The
  reader at mcpe_viz.util.h:388 applies no transform. A raster whose pixels take fewer than bpp
  bytes has bpp 3: grey and palette at every bit depth, and 8-bit grey-alpha. For it the memcpy at
  mcpe_viz.util.h:482 reads past the end of the scan-line, which is undefined behaviour. `ShortRowOverRead` shows
  this for the last pixel. Such rasters are excluded by the requires of `DoTile`.
- `mybasename`: its body is not in the header. The base name is a parameter of `DoTile`.
- The memory management of `doTile` (`delete[]`, `pngSrc.close()`) is not modelled. Neither is the
  fixed 256-byte `tmpstring` that `sprintf` fills: names are unbounded strings, so an overlong name
  is not modelled.
- `ceil((double)srcW / tileWidth)` is modelled as integer ceiling division, which it equals for
  `int` inputs.
- Tiler.PngTiler.DoTile: the `int` products `tileWidth*tileHeight*bpp` and `sx*bpp` are unbounded
  integers, so an overflow on gigantic images is not modelled.
- The `ColorInfo` HSL fields `h`, `s`, `l`, and `rgb2hsb`, `hsl2rgb`, `makeHslRamp`, `toHtml`,
  `compareColorInfo` and `oversampleImage` are left out. They are floating point, or declared in the
  header without a body.
- Logging.Logger.Msg: the message text is the already formatted string, because `vfprintf`
  formatting is left out. `fflush` has no modelled effect. `FILE*` is modelled as whether the stream
  is set. The stderr stream is never written by `msg`.
- Random.JavaRandom.NextInt: the range [0, bound) is proved for non-power-of-two bounds and for
  power-of-two bounds up to 2^31. Larger power-of-two bounds lose bits in the `int32_t` narrowing,
  for example bound 2^33 with next(31) = 2^29 gives -2^31.
- Random.JavaRandom.NextInt: negative bounds are outside the model (requires bound >= 0).
  java.util.Random rejects every bound <= 0. The C++ instead takes the do-while, and there the int64
  test can be true. For example, nextInt(-10) retries whenever next(31) < 20. For a bound from -2^63 + 1
  to -2^31 the test is always true, so the loop never ends. Modelling this needs an unbounded retry loop.
- Random.JavaRandom.Next: requires -15 <= bits <= 48, because the shift `(uint64_t)seed >> (48 - bits)` at
  mcpe_viz.util.h:600 is undefined in C++ outside that range. For bits < -15 the count is 64 or more;
  for bits > 48 it is negative.
- Random.NextSeed: the signed 64-bit overflow in `seed * 0x5DEECE66D` is undefined behaviour in C++.
  It is modelled as two's-complement wrap-around.
- Histograms.Added: `map[k]++` past INT32_MAX is signed overflow. It is modelled as wrap-around.
- Histograms.Histogram.GetTotal: `total += it.second` past the int32 range is signed overflow
  (undefined behaviour in C++). It is modelled as wrap-around through `ToInt32`. The exact sum is
  promised only when it fits.
- The bitwise operators of `setSeed` (exclusive or, mask) and of nextInt's power-of-two test
  (`bound & -bound`) are modelled by arithmetic (`XorBits`, `LowBit`). `calcHSL`'s masks and shifts
  are modelled by division and remainder.
- Histograms.Histogram.Sort: `std::sort` is not stable. The contract promises a permutation ordered
  by count, and which of the equal-count orders is returned is not specified. The model picks one.
- Random.JavaRandom.NextIntJava: the corrected retry loop takes a bound on the number of draws and
  returns `None` when it runs out. Java's loop has no bound.

## Findings

| source | as written | input that shows it | evidently intended | confidence | as-written member | corrected member |
|---|---|---|---|---|---|---|
| mcpe_viz.util.h:609-614 | `bits - val + (bound - 1) < 0` is computed in `int64_t`, because `bound` is `int64_t`, so for bound >= 1 it is never true and nextInt never retries | nextInt(10) when next(31) returns 2147483647: the C++ returns 7, while java.util.Random rejects the draw and draws again | Java's `int` wrap-around test, which rejects draws at or past the last whole multiple of bound below 2^31 | not executed | Random.RetryDiffers | Random.JavaRandom.NextIntJava |
