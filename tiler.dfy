/** PngTiler::doTile: cut a decoded raster into fixed-size tiles while holding
    only one band of tile buffers at a time.  The libpng writer is reduced to
    the state the tiler touches (file name, header fields, row pointers), and
    each png_write_image + close becomes one TileFile appended to the result. */
module Tiler {
  import opened Arith
  import opened TileSpec

  /** What a PngWriter holds between init and close. */
  datatype PngWriter =
    | Closed
    | Open(fn: string, description: string, width: int, height: int, rgba: bool, rowPointers: seq<int>)

  function Channels(rgba: bool): nat {
    if rgba then 4 else 3
  }

  /** PngWriter::init: record the header fields and allocate numRowPointers
      row pointers, which the caller sets afterwards. */
  function InitWriter(fn: string, description: string, width: int, height: int,
                      numRowPointers: nat, rgba: bool): (w: PngWriter)
    ensures w.Open? && w.fn == fn && w.description == description && w.rgba == rgba
    ensures w.width == width && w.height == height && |w.rowPointers| == numRowPointers
  {
    Open(fn, description, width, height, rgba, seq(numRowPointers, ty => 0))
  }

  /** Bytes in one scan-line of an open writer's image. */
  function ScanBytes(w: PngWriter): (n: nat)
    requires w.Open? && w.width >= 0
    ensures n == w.width * Channels(w.rgba)
  {
    MulLe(0, w.width, Channels(w.rgba));
    w.width * Channels(w.rgba)
  }

  /** png_write_image followed by close: scan-line ty is the width * channels
      bytes of the buffer that row pointer ty points at. */
  function WriteImage(w: PngWriter, data: seq<byte>): (t: TileFile)
    requires w.Open? && 0 <= w.height <= |w.rowPointers| && w.width >= 0
    requires forall ty :: 0 <= ty < w.height ==>
               0 <= w.rowPointers[ty] && w.rowPointers[ty] + ScanBytes(w) <= |data|
    ensures t.name == w.fn && t.description == w.description && t.rgba == w.rgba
    ensures t.width == w.width && t.height == w.height && |t.rows| == w.height
    ensures forall ty :: 0 <= ty < w.height ==>
              w.rowPointers[ty] + ScanBytes(w) <= |data| &&
              t.rows[ty] == data[w.rowPointers[ty] .. w.rowPointers[ty] + ScanBytes(w)]
  {
    var rowLen := ScanBytes(w);
    TileFile(w.fn, w.description, w.width, w.height, w.rgba,
             seq(w.height, ty requires 0 <= ty < w.height => data[w.rowPointers[ty] .. w.rowPointers[ty] + rowLen]))
  }

  /** d with the bytes from off on replaced by piece (the effect of memcpy). */
  function Splice(d: seq<byte>, off: nat, piece: seq<byte>): (r: seq<byte>)
    requires off + |piece| <= |d|
    ensures |r| == |d|
    ensures forall k :: 0 <= k < |r| ==> r[k] == if off <= k < off + |piece| then piece[k - off] else d[k]
  {
    seq<byte>(|d|, k requires 0 <= k < |d| => if off <= k < off + |piece| then piece[k - off] else d[k])
  }

  /** memset(dst, value, n) */
  method MemSet(dst: array<byte>, value: byte, n: nat)
    requires n <= dst.Length
    modifies dst
    ensures forall k :: 0 <= k < dst.Length ==> dst[k] == if k < n then value else old(dst[k])
  {
    for k := 0 to n
      invariant forall m :: 0 <= m < dst.Length ==> dst[m] == if m < k then value else old(dst[m])
    {
      dst[k] := value;
    }
  }

  /** memcpy(dst + dstOff, src + srcOff, n) */
  method MemCpy(dst: array<byte>, dstOff: nat, src: seq<byte>, srcOff: nat, n: nat)
    requires dstOff + n <= dst.Length && srcOff + n <= |src|
    modifies dst
    ensures dst[..] == Splice(old(dst[..]), dstOff, src[srcOff .. srcOff + n])
  {
    for k := 0 to n
      invariant forall m :: 0 <= m < dst.Length ==>
                  dst[m] == if dstOff <= m < dstOff + k then src[srcOff + m - dstOff] else old(dst[m])
    {
      dst[dstOff + k] := src[srcOff + k];
    }
  }

  // ---------------------------------------------------------------------
  // Tile buffers part-way through a band

  /** Byte x of scan-line y of the source as far as the copy loop has got:
      rows above doneRow are complete, row doneRow holds its first doneBytes
      bytes, everything else (and everything outside the image) is still zero. */
  ghost function StagedByte(rows: seq<seq<byte>>, y: int, x: int, doneRow: int, doneBytes: int): byte {
    if 0 <= y < |rows| && 0 <= x < |rows[y]| && (y < doneRow || (y == doneRow && x < doneBytes))
    then rows[y][x] else 0
  }

  /** The flat buffer of a tile whose top-left byte is byte x0 of scan-line
      y0 of the source, th scan-lines of rb bytes: byte k is byte k % rb of
      tile scan-line k / rb. */
  ghost function Staged(rows: seq<seq<byte>>, th: nat, rb: nat, y0: int, x0: int,
                        doneRow: int, doneBytes: int): (d: seq<byte>)
    requires rb > 0
    ensures |d| == th * rb
    ensures forall k :: 0 <= k < |d| ==> d[k] == StagedByte(rows, y0 + k / rb, x0 + k % rb, doneRow, doneBytes)
  {
    seq<byte>(th * rb, k => StagedByte(rows, y0 + k / rb, x0 + k % rb, doneRow, doneBytes))
  }

  /** A cleared buffer is the staged state at the first row of its tile. */
  lemma StagedFresh(rows: seq<seq<byte>>, th: nat, rb: nat, y0: int, x0: int, d: seq<byte>)
    requires rb > 0 && x0 >= 0
    requires |d| == th * rb && forall k :: 0 <= k < |d| ==> d[k] == 0
    ensures d == Staged(rows, th, rb, y0, x0, y0, 0)
  {
    var st := Staged(rows, th, rb, y0, x0, y0, 0);
    forall k | 0 <= k < |d|
      ensures st[k] == 0
    {
      DivModNat(k, rb);
    }
  }

  /** Finishing scan-line sy (all of its bytes copied) is the start of scan-line sy + 1. */
  lemma StagedRowDone(rows: seq<seq<byte>>, th: nat, rb: nat, y0: int, x0: int, sy: int, rowLen: int)
    requires rb > 0 && x0 >= 0
    requires forall y :: 0 <= y < |rows| ==> |rows[y]| == rowLen
    ensures Staged(rows, th, rb, y0, x0, sy, rowLen) == Staged(rows, th, rb, y0, x0, sy + 1, 0)
  {
    var a, b := Staged(rows, th, rb, y0, x0, sy, rowLen), Staged(rows, th, rb, y0, x0, sy + 1, 0);
    forall k | 0 <= k < |a|
      ensures a[k] == b[k]
    {
      DivModNat(k, rb);
    }
  }

  /** Copying bytes a .. b of the current row does not change a tile that
      lies wholly to the left or to the right of them. */
  lemma StagedUnaffected(rows: seq<seq<byte>>, th: nat, rb: nat, y0: int, x0: int, doneRow: int, a: int, b: int)
    requires rb > 0 && a <= b && (x0 + rb <= a || b <= x0)
    ensures Staged(rows, th, rb, y0, x0, doneRow, a) == Staged(rows, th, rb, y0, x0, doneRow, b)
  {
    var s, t := Staged(rows, th, rb, y0, x0, doneRow, a), Staged(rows, th, rb, y0, x0, doneRow, b);
    forall k | 0 <= k < |s|
      ensures s[k] == t[k]
    {
      DivModNat(k, rb);
    }
  }

  /** Byte k of a flat buffer of scan-lines of rb bytes, against an offset
      off = ty * rb + o inside scan-line ty. */
  lemma LocateByte(k: int, rb: int, ty: int, o: int, n: int)
    requires rb > 0 && k >= 0 && ty >= 0 && o >= 0 && o + n <= rb
    ensures ty * rb + o <= k < ty * rb + o + n ==> k / rb == ty && k % rb == o + (k - (ty * rb + o))
    ensures k / rb == ty ==> k % rb == k - ty * rb
  {
    DivModNat(k, rb);
    if ty * rb + o <= k < ty * rb + o + n {
      DivModUnique(ty, o + (k - (ty * rb + o)), rb);
    }
  }

  /** Copying bytes a .. a + n of scan-line sy, which land at byte o of
      tile scan-line ty, is the next step of the copy loop. */
  lemma StagedCopy(rows: seq<seq<byte>>, th: nat, rb: nat, y0: int, x0: int, sy: int, ty: nat, o: nat, a: int, n: nat)
    requires rb > 0 && 0 <= sy < |rows| && ty < th && y0 + ty == sy
    requires x0 + o == a && 0 <= a && o + n <= rb && a + n <= |rows[sy]|
    ensures ty * rb + o + n <= th * rb
    ensures Staged(rows, th, rb, y0, x0, sy, a + n)
              == Splice(Staged(rows, th, rb, y0, x0, sy, a), ty * rb + o, rows[sy][a .. a + n])
  {
    MulLe(ty + 1, th, rb);
    var off := ty * rb + o;
    var before, after := Staged(rows, th, rb, y0, x0, sy, a), Staged(rows, th, rb, y0, x0, sy, a + n);
    var spliced := Splice(before, off, rows[sy][a .. a + n]);
    forall k | 0 <= k < |after|
      ensures after[k] == spliced[k]
    {
      LocateByte(k, rb, ty, o, n);
    }
  }

  /** Once every source row the tile covers is copied, scan-line ty of the
      buffer is the window of the source scan-line under it (zero below the image). */
  lemma StagedScanLine(rows: seq<seq<byte>>, th: nat, rb: nat, y0: int, x0: int, doneRow: int, ty: nat)
    requires rb > 0 && ty < th && 0 <= y0 && 0 <= x0
    requires y0 + ty < |rows| ==> y0 + ty < doneRow
    ensures ty * rb + rb <= th * rb
    ensures Staged(rows, th, rb, y0, x0, doneRow, 0)[ty * rb .. ty * rb + rb]
              == if y0 + ty < |rows| then Window(rows[y0 + ty], x0, rb) else Zeros(rb)
  {
    MulLe(ty + 1, th, rb);
    var d := Staged(rows, th, rb, y0, x0, doneRow, 0);
    var line := d[ty * rb .. ty * rb + rb];
    var row := if y0 + ty < |rows| then Window(rows[y0 + ty], x0, rb) else Zeros(rb);
    forall j | 0 <= j < rb
      ensures line[j] == row[j]
    {
      DivModUnique(ty, j, rb);
      assert line[j] == d[ty * rb + j] == StagedByte(rows, y0 + ty, x0 + j, doneRow, 0);
    }
  }

  // ---------------------------------------------------------------------
  // The same facts for the buffers of a tiling job

  /** The state of doTile's scan-line loop before scan-line sy: tileCounterY
      bands have been opened, the writers and buffers of the current band are
      open and hold its scan-lines before sy exactly when initPngFlag is set,
      and the tiles of every earlier band have been written. */
  ghost predicate RowLoop(job: TileJob, sy: nat, initPngFlag: bool, tileCounterY: nat, written: seq<TileFile>,
                          pngOut: array<PngWriter>, buf: seq<array<byte>>)
    requires job.Valid() && pngOut.Length == |buf|
    reads pngOut, buf
  {
    var band := sy / job.tileHeight;
    && tileCounterY == band + (if initPngFlag then 1 else 0)
    && (initPngFlag <==> sy % job.tileHeight != 0)
    && written == job.Grid(band)
    && (initPngFlag ==> BandOpen(job, band, sy, pngOut, buf))
  }

  /** The writers of tile band `band` are open and its buffers hold the
      scan-lines of the band before doneRow. */
  ghost predicate BandOpen(job: TileJob, band: nat, doneRow: int, pngOut: array<PngWriter>, buf: seq<array<byte>>)
    requires job.Valid() && pngOut.Length == |buf|
    reads pngOut, buf
  {
    && (forall i :: 0 <= i < |buf| ==> pngOut[i] == TileWriter(job, band, i))
    && (forall i :: 0 <= i < |buf| ==> buf[i][..] == JobStaged(job, band, i, doneRow, 0))
  }

  /** The writer the tiler opens for tile (band, col), with its row pointers set. */
  function TileWriter(job: TileJob, band: nat, col: nat): (w: PngWriter)
    requires job.Valid()
    ensures w.Open? && |w.rowPointers| == job.tileHeight
  {
    Open(TileName(job.dirOutput, job.baseName, band, col), TILE_DESCRIPTION, job.tileWidth, job.tileHeight,
         job.Bpp() == 4, seq(job.tileHeight, ty => ty * job.RowBytes()))
  }

  lemma RowBytesPositive(job: TileJob)
    requires job.Valid()
    ensures job.RowBytes() >= job.tileWidth > 0
    ensures job.tileWidth * job.tileHeight * job.Bpp() == job.tileHeight * job.RowBytes() >= 0
  {
    MulLe(1, job.Bpp(), job.tileWidth);
    MulLe(0, job.tileHeight, job.RowBytes());
  }

  /** The buffer of tile column col during band band. */
  ghost function JobStaged(job: TileJob, band: nat, col: nat, doneRow: int, doneBytes: int): (d: seq<byte>)
    requires job.Valid()
    ensures |d| == job.tileHeight * job.RowBytes()
  {
    RowBytesPositive(job);
    Staged(job.Rows(), job.tileHeight, job.RowBytes(), band * job.tileHeight, col * job.RowBytes(), doneRow, doneBytes)
  }

  /** A cleared buffer is the staged state at the first row of its band. */
  lemma JobFresh(job: TileJob, band: nat, col: nat, d: seq<byte>)
    requires job.Valid()
    requires |d| == job.tileHeight * job.RowBytes() && forall k :: 0 <= k < |d| ==> d[k] == 0
    ensures d == JobStaged(job, band, col, band * job.tileHeight, 0)
  {
    RowBytesPositive(job);
    MulLe(0, col, job.RowBytes());
    StagedFresh(job.Rows(), job.tileHeight, job.RowBytes(), band * job.tileHeight, col * job.RowBytes(), d);
  }

  /** Finishing scan-line sy is the start of scan-line sy + 1. */
  lemma JobRowDone(job: TileJob, band: nat, col: nat, sy: int)
    requires job.Valid()
    ensures JobStaged(job, band, col, sy, job.src.width * job.Bpp()) == JobStaged(job, band, col, sy + 1, 0)
  {
    RowBytesPositive(job);
    MulLe(0, col, job.RowBytes());
    StagedRowDone(job.Rows(), job.tileHeight, job.RowBytes(), band * job.tileHeight, col * job.RowBytes(),
                  sy, job.src.width * job.Bpp());
  }

  /** The source bytes of pixel (sx, sy). */
  ghost function SourcePixel(job: TileJob, sx: nat, sy: nat): (p: seq<byte>)
    requires job.Valid() && sx < job.src.width && sy < job.src.height
    ensures |p| == job.Bpp()
  {
    MulLe(sx + 1, job.src.width, job.Bpp());
    job.src.rows[sy][sx * job.Bpp() .. sx * job.Bpp() + job.Bpp()]
  }

  /** The buffer offset at which doTile copies pixel (sx, sy): scan-line
      sy % tileHeight, pixel sx % tileWidth of the tile. */
  function CopyOffset(job: TileJob, sx: nat, sy: nat): (off: nat)
    requires job.Valid()
    ensures off == (sy % job.tileHeight) * job.RowBytes() + (sx % job.tileWidth) * job.Bpp()
  {
    var tw, bpp, ty, tx := job.tileWidth, job.Bpp(), sy % job.tileHeight, sx % job.tileWidth;
    assert ((ty * tw) + tx) * bpp == ty * (tw * bpp) + tx * bpp;
    MulLe(0, tx, bpp);
    MulLe(0, ty, tw * bpp);
    ((ty * tw) + tx) * bpp
  }

  /** The copy of pixel (sx, sy) in doTile stays inside both buffers: the tile
      column sx / tileWidth exists, the pixel's bpp bytes fit in the tile buffer
      of tileWidth * tileHeight * bpp bytes and in the source row of srcW * bpp. */
  lemma CopyInBounds(sx: nat, sy: nat, srcW: nat, tw: int, th: int, bpp: int)
    requires sx < srcW && tw > 0 && th > 0 && bpp > 0
    ensures 0 <= sx / tw < CeilDiv(srcW, tw)
    ensures 0 <= (((sy % th) * tw) + sx % tw) * bpp
    ensures (((sy % th) * tw) + sx % tw) * bpp + bpp <= tw * th * bpp
    ensures sx * bpp + bpp <= srcW * bpp
  {
    CeilDivCovers(sx, srcW, tw);
    DivModNat(sy, th);
    DivModNat(sx, tw);
    SlotBound(sy % th, sx % tw, tw, th, bpp);
    MulLe(sx + 1, srcW, bpp);
  }

  /** Pixel tx of scan-line ty of a tw by th tile, bpp bytes each, lies in the tile. */
  lemma SlotBound(ty: int, tx: int, tw: int, th: int, bpp: int)
    requires 0 <= ty < th && 0 <= tx < tw && bpp > 0
    ensures 0 <= (ty * tw + tx) * bpp
    ensures (ty * tw + tx) * bpp + bpp <= tw * th * bpp
  {
    MulLe(ty, th - 1, tw);
    var k := ty * tw + tx;
    assert (th - 1) * tw + tw == th * tw;
    MulLe(0, k, bpp);
    MulLe(k + 1, th * tw, bpp);
    assert (k + 1) * bpp == k * bpp + bpp;
    assert th * tw == tw * th;
  }

  /** Where the bytes of source pixel sx fall among the tile columns. */
  lemma PixelSpan(sx: nat, tw: int, bpp: nat)
    requires tw > 0
    ensures (sx / tw) * (tw * bpp) + (sx % tw) * bpp == sx * bpp
    ensures (sx % tw) * bpp + bpp <= tw * bpp
    ensures (sx + 1) * bpp == sx * bpp + bpp
  {
    ColumnSplit(sx, tw, bpp);
    MulLe(sx % tw + 1, tw, bpp);
  }

  /** The bytes of pixel sx lie wholly outside every tile column other than sx / tw. */
  lemma ColumnsDisjoint(sx: nat, tw: int, bpp: nat, col: nat)
    requires tw > 0 && col != sx / tw
    ensures col * (tw * bpp) + tw * bpp <= sx * bpp || (sx + 1) * bpp <= col * (tw * bpp)
  {
    var rb, c0, tx := tw * bpp, sx / tw, sx % tw;
    PixelSpan(sx, tw, bpp);
    assert c0 * rb + tx * bpp == sx * bpp;
    if col < c0 {
      MulLe(col + 1, c0, rb);
      assert (col + 1) * rb == col * rb + rb;
      MulLe(0, tx, bpp);
    } else {
      MulLe(c0 + 1, col, rb);
      assert (c0 + 1) * rb == c0 * rb + rb;
    }
  }

  /** Copying pixel sx touches no tile column other than sx / tileWidth. */
  lemma StageOtherColumn(job: TileJob, band: nat, col: nat, sy: int, sx: nat)
    requires job.Valid() && col != sx / job.tileWidth
    ensures JobStaged(job, band, col, sy, sx * job.Bpp()) == JobStaged(job, band, col, sy, (sx + 1) * job.Bpp())
  {
    RowBytesPositive(job);
    PixelSpan(sx, job.tileWidth, job.Bpp());
    ColumnsDisjoint(sx, job.tileWidth, job.Bpp(), col);
    StagedUnaffected(job.Rows(), job.tileHeight, job.RowBytes(), band * job.tileHeight, col * job.RowBytes(),
                     sy, sx * job.Bpp(), (sx + 1) * job.Bpp());
  }

  /** Copying pixel (sx, sy) into its tile column is one more pixel of the copy loop. */
  lemma StageSameColumn(job: TileJob, sy: nat, sx: nat)
    requires job.Valid() && sy < job.src.height && sx < job.src.width
    ensures CopyOffset(job, sx, sy) + job.Bpp() <= job.tileHeight * job.RowBytes()
    ensures var band, col := sy / job.tileHeight, sx / job.tileWidth;
      JobStaged(job, band, col, sy, (sx + 1) * job.Bpp())
        == Splice(JobStaged(job, band, col, sy, sx * job.Bpp()), CopyOffset(job, sx, sy), SourcePixel(job, sx, sy))
  {
    var tw, th, bpp, rb := job.tileWidth, job.tileHeight, job.Bpp(), job.RowBytes();
    var band, col, ty, tx := sy / th, sx / tw, sy % th, sx % tw;
    PixelSlot(job, sy, sx);
    var rows := job.Rows();
    assert rows[sy][sx * bpp .. sx * bpp + bpp] == SourcePixel(job, sx, sy);
    StagedCopy(rows, th, rb, band * th, col * rb, sy, ty, tx * bpp, sx * bpp, bpp);
  }

  /** Where pixel (sx, sy) lies: scan-line sy % th of band sy / th, and byte
      offset (sx % tw) * bpp of tile column sx / tw, inside the scan-line. */
  lemma PixelSlot(job: TileJob, sy: nat, sx: nat)
    requires job.Valid() && sy < job.src.height && sx < job.src.width
    ensures job.RowBytes() > 0 && 0 <= sy % job.tileHeight < job.tileHeight
    ensures (sy / job.tileHeight) * job.tileHeight + sy % job.tileHeight == sy
    ensures (sx / job.tileWidth) * job.RowBytes() + (sx % job.tileWidth) * job.Bpp() == sx * job.Bpp()
    ensures 0 <= (sx % job.tileWidth) * job.Bpp()
    ensures (sx % job.tileWidth) * job.Bpp() + job.Bpp() <= job.RowBytes()
    ensures (sx + 1) * job.Bpp() == sx * job.Bpp() + job.Bpp() <= job.src.width * job.Bpp()
  {
    var tw, th, bpp := job.tileWidth, job.tileHeight, job.Bpp();
    RowBytesPositive(job);
    PixelSpan(sx, tw, bpp);
    DivModSplit(sy, th);
    DivModNat(sy, th);
    MulLe(sx + 1, job.src.width, bpp);
    MulLe(0, sx % tw, bpp);
  }


  /** Once the band's rows are all copied (the band is full, or the image
      has ended), scan-line ty of the buffer is scan-line ty of the tile. */
  lemma JobScanLine(job: TileJob, band: nat, col: nat, doneRow: int, ty: nat)
    requires job.Valid() && ty < job.tileHeight
    requires doneRow <= job.src.height
    requires doneRow == job.src.height || doneRow == band * job.tileHeight + job.tileHeight
    ensures ty * job.RowBytes() + job.RowBytes() <= job.tileHeight * job.RowBytes()
    ensures JobStaged(job, band, col, doneRow, 0)[ty * job.RowBytes() .. ty * job.RowBytes() + job.RowBytes()]
              == job.TileRow(band, col, ty)
  {
    var rb := job.RowBytes();
    RowBytesPositive(job);
    MulLe(0, band, job.tileHeight);
    MulLe(0, col, rb);
    StagedScanLine(job.Rows(), job.tileHeight, rb, band * job.tileHeight, col * rb, doneRow, ty);
  }

  /** Writing the buffer of a finished tile through its writer produces the specified tile. */
  lemma WriteTile(job: TileJob, band: nat, col: nat, doneRow: int)
    requires job.Valid()
    requires doneRow <= job.src.height
    requires doneRow == job.src.height || doneRow == band * job.tileHeight + job.tileHeight
    ensures var w, d := TileWriter(job, band, col), JobStaged(job, band, col, doneRow, 0);
      && 0 <= w.height <= |w.rowPointers| && w.width >= 0
      && (forall ty :: 0 <= ty < w.height ==>
            0 <= w.rowPointers[ty] && w.rowPointers[ty] + ScanBytes(w) <= |d|)
      && WriteImage(w, d) == job.Tile(band, col)
  {
    var w, d := TileWriter(job, band, col), JobStaged(job, band, col, doneRow, 0);
    var rb := job.RowBytes();
    assert ScanBytes(w) == rb;
    forall ty | 0 <= ty < w.height
      ensures 0 <= w.rowPointers[ty] && w.rowPointers[ty] + rb <= |d|
      ensures d[w.rowPointers[ty] .. w.rowPointers[ty] + rb] == job.TileRow(band, col, ty)
    {
      MulLe(0, ty, rb);
      JobScanLine(job, band, col, doneRow, ty);
    }
    assert WriteImage(w, d).rows == job.Tile(band, col).rows;
  }

  // ---------------------------------------------------------------------

  class PngTiler {
    var filename: string
    var tileWidth: int
    var tileHeight: int
    var dirOutput: string

    constructor (fn: string, tileW: int, tileH: int, dirOut: string)
      ensures filename == fn && tileWidth == tileW && tileHeight == tileH && dirOutput == dirOut
    {
      filename := fn;
      tileWidth := tileW;
      tileHeight := tileH;
      dirOutput := dirOut;
    }

    /** The job this tiler runs on the raster decoded from `filename`, whose
        base name is srcBaseName. */
    function Job(src: SourceImage, srcBaseName: string): TileJob
      reads this
    {
      TileJob(src, tileWidth, tileHeight, dirOutput, srcBaseName)
    }

    /** The parts of the job that come from this tiler's fields. */
    predicate Runs(job: TileJob, srcBaseName: string)
      reads this
    {
      job.Valid() && job == Job(job.src, srcBaseName)
    }

    /** doTile: the tiles written are exactly the grid of the specification,
        NumBands bands of NumCols tiles, band after band and left to right
        within a band, and the status is 0. */
    method DoTile(src: SourceImage, srcBaseName: string)
      returns (status: int, written: seq<TileFile>, ghost bandsOpened: nat)
      requires tileWidth > 0 && tileHeight > 0 && WellFormed(src)
      ensures status == 0
      ensures written == Job(src, srcBaseName).Grid(Job(src, srcBaseName).NumBands())
      ensures bandsOpened == Job(src, srcBaseName).NumBands()
    {
      ghost var job := Job(src, srcBaseName);
      var srcW := src.width;
      var srcH := src.height;
      var colorType := src.colorType;
      var rgbaFlag := false;
      var bpp := 3;
      if colorType == PNG_COLOR_TYPE_RGB_ALPHA {
        bpp := 4;
        rgbaFlag := true;
      }
      assert bpp == job.Bpp();
      var numPngW := CeilDiv(srcW, tileWidth);
      var size := tileWidth * tileHeight * bpp;
      RowBytesPositive(job);

      var pngOut := new PngWriter[numPngW];
      var buf := NewBuffers(numPngW, size);

      var initPngFlag := false;
      var tileCounterY := 0;
      written := [];

      for sy := 0 to srcH
        modifies pngOut, buf
        invariant RowLoop(job, sy, initPngFlag, tileCounterY, written, pngOut, buf)
      {
        initPngFlag, tileCounterY := StartRow(job, srcBaseName, sy, pngOut, buf, rgbaFlag, bpp, initPngFlag, tileCounterY);
        CopyRow(job, sy, src.rows[sy], srcW, buf, bpp);
        NextRow(sy, tileHeight);
        initPngFlag, written := EndRow(job, sy, pngOut, buf, written);
      }

      // a trailing partial band is written after the loop
      if initPngFlag {
        var tiles := WriteBand(job, srcH / tileHeight, srcH, pngOut, buf);
        written := written + tiles;
        CeilDivInexact(srcH, tileHeight);
      } else {
        CeilDivExact(srcH, tileHeight);
      }
      bandsOpened := tileCounterY;
      status := 0;
    }

    /** buf[i] = new uint8_t[size] for every tile column i. */
    static method NewBuffers(n: nat, size: nat) returns (buf: seq<array<byte>>)
      ensures |buf| == n
      ensures forall j :: 0 <= j < n ==> buf[j].Length == size && fresh(buf[j])
      ensures forall j, k :: 0 <= j < k < n ==> buf[j] != buf[k]
    {
      buf := [];
      for i := 0 to n
        invariant |buf| == i
        invariant forall j :: 0 <= j < i ==> buf[j].Length == size && fresh(buf[j])
        invariant forall j, k :: 0 <= j < k < i ==> buf[j] != buf[k]
      {
        var b := new byte[size];
        buf := buf + [b];
      }
    }

    /** The "initialize png helpers" step of doTile: for every tile column,
        open the writer of tile (band, column) under its file name, clear its
        buffer and point row pointer ty at scan-line ty of the buffer. */
    method OpenBand(ghost job: TileJob, srcBaseName: string, tileCounterY: nat,
                    pngOut: array<PngWriter>, buf: seq<array<byte>>, rgbaFlag: bool, bpp: int)
      requires Runs(job, srcBaseName) && bpp == job.Bpp() && rgbaFlag == (bpp == 4)
      requires pngOut.Length == |buf|
      requires forall i :: 0 <= i < |buf| ==> buf[i].Length == tileWidth * tileHeight * bpp
      requires forall j, k :: 0 <= j < k < |buf| ==> buf[j] != buf[k]
      modifies pngOut, buf
      ensures forall i :: 0 <= i < |buf| ==> pngOut[i] == TileWriter(job, tileCounterY, i)
      ensures forall i :: 0 <= i < |buf| ==> buf[i][..] == JobStaged(job, tileCounterY, i, tileCounterY * tileHeight, 0)
    {
      for i := 0 to |buf|
        invariant forall i' :: 0 <= i' < i ==> pngOut[i'] == TileWriter(job, tileCounterY, i')
        invariant forall i' :: 0 <= i' < i ==> buf[i'][..] == JobStaged(job, tileCounterY, i', tileCounterY * tileHeight, 0)
      {
        OpenTile(job, srcBaseName, tileCounterY, i, pngOut, buf[i], rgbaFlag, bpp);
      }
    }

    /** The head of doTile's scan-line loop: at the first scan-line of a
        band the flag is set, the band's writers and zeroed buffers are opened
        and tileCounterY is incremented. */
    method StartRow(ghost job: TileJob, srcBaseName: string, sy: nat, pngOut: array<PngWriter>, buf: seq<array<byte>>,
                    rgbaFlag: bool, bpp: int, initPngFlag0: bool, tileCounterY0: nat)
      returns (initPngFlag: bool, tileCounterY: nat)
      requires Runs(job, srcBaseName) && bpp == job.Bpp() && rgbaFlag == (bpp == 4)
      requires tileHeight == job.tileHeight
      requires pngOut.Length == |buf|
      requires forall i :: 0 <= i < |buf| ==> buf[i].Length == tileWidth * tileHeight * bpp
      requires forall j, k :: 0 <= j < k < |buf| ==> buf[j] != buf[k]
      requires tileCounterY0 == sy / job.tileHeight + (if initPngFlag0 then 1 else 0)
      requires initPngFlag0 <==> sy % job.tileHeight != 0
      requires initPngFlag0 ==> BandOpen(job, sy / job.tileHeight, sy, pngOut, buf)
      modifies pngOut, buf
      ensures initPngFlag && tileCounterY == sy / job.tileHeight + 1
      ensures BandOpen(job, sy / job.tileHeight, sy, pngOut, buf)
    {
      initPngFlag, tileCounterY := initPngFlag0, tileCounterY0;
      if !initPngFlag {
        initPngFlag := true;
        ExactDiv(sy, tileHeight);
        OpenBand(job, srcBaseName, tileCounterY, pngOut, buf, rgbaFlag, bpp);
        tileCounterY := tileCounterY + 1;
      }
    }

    /** The tail of doTile's scan-line loop, after scan-line sy is copied: a
        band is complete after its last scan-line, and then its tiles are
        written and the flag cleared. */
    method EndRow(ghost job: TileJob, sy: nat, pngOut: array<PngWriter>, buf: seq<array<byte>>,
                  written0: seq<TileFile>)
      returns (initPngFlag: bool, written: seq<TileFile>)
      requires job.Valid() && tileHeight == job.tileHeight && sy < job.src.height
      requires pngOut.Length == |buf| == job.NumCols()
      requires written0 == job.Grid(sy / job.tileHeight)
      requires BandOpen(job, sy / job.tileHeight, sy + 1, pngOut, buf)
      modifies pngOut
      ensures initPngFlag <==> (sy + 1) % job.tileHeight != 0
      ensures written == job.Grid((sy + 1) / job.tileHeight)
      ensures initPngFlag ==> BandOpen(job, (sy + 1) / job.tileHeight, sy + 1, pngOut, buf)
      ensures !initPngFlag ==> forall i :: 0 <= i < pngOut.Length ==> pngOut[i] == Closed
    {
      initPngFlag, written := true, written0;
      NextRow(sy, tileHeight);
      if (sy + 1) % tileHeight == 0 {
        var tiles := WriteBand(job, sy / tileHeight, sy + 1, pngOut, buf);
        written := written + tiles;
        initPngFlag := false;
      }
    }

    /** One iteration of the "initialize png helpers" loop: tile column i. */
    method OpenTile(ghost job: TileJob, srcBaseName: string, tileCounterY: nat, i: nat,
                    pngOut: array<PngWriter>, b: array<byte>, rgbaFlag: bool, bpp: int)
      requires Runs(job, srcBaseName) && bpp == job.Bpp() && rgbaFlag == (bpp == 4)
      requires i < pngOut.Length && b.Length == tileWidth * tileHeight * bpp
      modifies pngOut, b
      ensures pngOut[i] == TileWriter(job, tileCounterY, i)
      ensures forall j :: 0 <= j < pngOut.Length && j != i ==> pngOut[j] == old(pngOut[j])
      ensures b[..] == JobStaged(job, tileCounterY, i, tileCounterY * tileHeight, 0)
    {
      ghost var rb := job.RowBytes();
      RowBytesPositive(job);
      var fname := TileName(dirOutput, srcBaseName, tileCounterY, i);
      pngOut[i] := InitWriter(fname, TILE_DESCRIPTION, tileWidth, tileHeight, tileHeight, rgbaFlag);

      // zero the whole buffer
      MemSet(b, 0, tileWidth * tileHeight * bpp);
      JobFresh(job, tileCounterY, i, b[..]);

      // row pointer ty addresses scan-line ty of the buffer
      for ty := 0 to tileHeight
        modifies pngOut
        invariant forall j :: 0 <= j < pngOut.Length && j != i ==> pngOut[j] == old(pngOut[j])
        invariant pngOut[i].Open? && |pngOut[i].rowPointers| == tileHeight
        invariant pngOut[i] == Open(fname, TILE_DESCRIPTION, tileWidth, tileHeight, rgbaFlag, pngOut[i].rowPointers)
        invariant forall t :: 0 <= t < ty ==> pngOut[i].rowPointers[t] == t * rb
      {
        assert ty * tileWidth * bpp == ty * rb by { MulAssoc(ty, tileWidth, bpp); }
        pngOut[i] := pngOut[i].(rowPointers := pngOut[i].rowPointers[ty := ty * tileWidth * bpp]);
      }
      assert pngOut[i].rowPointers == TileWriter(job, tileCounterY, i).rowPointers;
    }

    /** The copy loop of doTile for source scan-line sy: pixel sx goes to
        pixel sx % tileWidth of scan-line sy % tileHeight of the buffer of
        tile column sx / tileWidth. */
    method CopyRow(ghost job: TileJob, sy: nat, srcbuf: seq<byte>, srcW: nat, buf: seq<array<byte>>, bpp: int)
      requires job.Valid() && tileWidth == job.tileWidth && tileHeight == job.tileHeight && bpp == job.Bpp()
      requires srcW == job.src.width
      requires sy < job.src.height && srcbuf == job.src.rows[sy]
      requires |buf| == job.NumCols()
      requires forall j, k :: 0 <= j < k < |buf| ==> buf[j] != buf[k]
      requires forall i :: 0 <= i < |buf| ==> buf[i][..] == JobStaged(job, sy / job.tileHeight, i, sy, 0)
      modifies buf
      ensures forall i :: 0 <= i < |buf| ==> buf[i][..] == JobStaged(job, sy / job.tileHeight, i, sy + 1, 0)
    {
      ghost var band := sy / tileHeight;
      // the whole scan-line copied is the next scan-line begun
      forall i | 0 <= i < |buf|
        ensures JobStaged(job, band, i, sy, srcW * bpp) == JobStaged(job, band, i, sy + 1, 0)
      {
        JobRowDone(job, band, i, sy);
      }
      var tileOffsetY := sy % tileHeight;
      for sx := 0 to srcW
        invariant forall i :: 0 <= i < |buf| ==> buf[i][..] == JobStaged(job, band, i, sy, sx * bpp)
      {
        CopyPixel(job, sy, sx, tileOffsetY, srcbuf, srcW, buf, bpp);
      }
    }

    /** One iteration of the copy loop: source pixel (sx, sy) is copied to its
        slot in the buffer of tile column sx / tileWidth, and the buffers of
        the other columns are left as they were. */
    method CopyPixel(ghost job: TileJob, sy: nat, sx: nat, tileOffsetY: int, srcbuf: seq<byte>, srcW: nat,
                     buf: seq<array<byte>>, bpp: int)
      requires job.Valid() && tileWidth == job.tileWidth && tileHeight == job.tileHeight && bpp == job.Bpp()
      requires srcW == job.src.width && sx < srcW
      requires sy < job.src.height && srcbuf == job.src.rows[sy] && tileOffsetY == sy % job.tileHeight
      requires |buf| == job.NumCols()
      requires forall j, k :: 0 <= j < k < |buf| ==> buf[j] != buf[k]
      requires forall i :: 0 <= i < |buf| ==> buf[i][..] == JobStaged(job, sy / job.tileHeight, i, sy, sx * bpp)
      modifies buf
      ensures forall i :: 0 <= i < |buf| ==> buf[i][..] == JobStaged(job, sy / job.tileHeight, i, sy, (sx + 1) * bpp)
    {
      ghost var band := sy / tileHeight;
      var tileCounterX := sx / tileWidth;
      forall i | 0 <= i < |buf| && i != tileCounterX
        ensures JobStaged(job, band, i, sy, sx * bpp) == JobStaged(job, band, i, sy, (sx + 1) * bpp)
      {
        StageOtherColumn(job, band, i, sy, sx);
      }
      var tileOffsetX := sx % tileWidth;
      CopyInBounds(sx, sy, srcW, tileWidth, tileHeight, bpp);
      var off := ((tileOffsetY * tileWidth) + tileOffsetX) * bpp;
      assert off == CopyOffset(job, sx, sy);
      StageSameColumn(job, sy, sx);
      MemCpy(buf[tileCounterX], off, srcbuf, sx * bpp, bpp);
    }

    /** The "write pngs" step of doTile, at the end of a band or of the
        image: every writer of the band writes its buffer and is closed. */
    method WriteBand(ghost job: TileJob, ghost band: nat, ghost doneRow: int,
                     pngOut: array<PngWriter>, buf: seq<array<byte>>) returns (tiles: seq<TileFile>)
      requires job.Valid() && pngOut.Length == |buf| == job.NumCols()
      requires doneRow <= job.src.height
      requires doneRow == job.src.height || doneRow == band * job.tileHeight + job.tileHeight
      requires forall i :: 0 <= i < |buf| ==> pngOut[i] == TileWriter(job, band, i)
      requires forall i :: 0 <= i < |buf| ==> buf[i][..] == JobStaged(job, band, i, doneRow, 0)
      modifies pngOut
      ensures tiles == job.BandTiles(band)
      ensures forall i :: 0 <= i < pngOut.Length ==> pngOut[i] == Closed
    {
      tiles := [];
      for i := 0 to pngOut.Length
        invariant tiles == job.BandTiles(band)[..i]
        invariant forall i' :: 0 <= i' < i ==> pngOut[i'] == Closed
        invariant forall i' :: i <= i' < pngOut.Length ==> pngOut[i'] == TileWriter(job, band, i')
      {
        WriteTile(job, band, i, doneRow);
        tiles := tiles + [WriteImage(pngOut[i], buf[i][..])];
        pngOut[i] := Closed;
      }
      assert job.BandTiles(band)[..pngOut.Length] == job.BandTiles(band);
    }
  }
}
