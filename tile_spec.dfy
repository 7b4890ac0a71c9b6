/** What a tiling job is meant to produce: the grid of fixed-size tiles cut
    from a decoded source raster, their file names, and the facts that tie
    every tile byte back to the source (or to zero padding). */
module TileSpec {
  import opened Arith
  import Decimal

  type byte = x: int | 0 <= x < 256

  /** libpng's colour-type codes for 8-bit RGB and RGBA rasters. */
  const PNG_COLOR_TYPE_RGB: int := 2
  const PNG_COLOR_TYPE_RGB_ALPHA: int := 6

  /** Text stored in every tile's "Description" metadata field. */
  const TILE_DESCRIPTION: string := "MCPE Viz Image Tile"

  /** A fully decoded source raster: the width, height and colour type the
      decoder reports, and one byte sequence per scan-line. */
  datatype SourceImage = SourceImage(width: nat, height: nat, colorType: int, rows: seq<seq<byte>>)

  /** Bytes per pixel the tiler assumes: 4 for RGBA, 3 for everything else. */
  function BytesPerPixel(colorType: int): (bpp: nat)
    ensures bpp == 4 <==> colorType == PNG_COLOR_TYPE_RGB_ALPHA
    ensures bpp == 3 <==> colorType != PNG_COLOR_TYPE_RGB_ALPHA
  {
    if colorType == PNG_COLOR_TYPE_RGB_ALPHA then 4 else 3
  }

  /** The decoded raster has one scan-line per row, each holding at least the
      width * BytesPerPixel bytes that the per-pixel copy reads from it: every
      raster whose pixels take at least BytesPerPixel bytes (8- or 16-bit RGB
      and RGBA, 16-bit grey-alpha). Where pixels are wider than that, only the
      prefix is read. */
  predicate WellFormed(src: SourceImage) {
    && |src.rows| == src.height
    && forall y :: 0 <= y < |src.rows| ==> |src.rows[y]| >= src.width * BytesPerPixel(src.colorType)
  }

  /** A scan-line shorter than width * BytesPerPixel bytes (any raster whose
      pixels take fewer bytes than that: grey and palette at every bit depth,
      8-bit grey-alpha) has a pixel whose copy reads past the end of the
      scan-line. */
  lemma ShortRowOverRead(width: nat, colorType: int, row: seq<byte>)
    requires |row| < width * BytesPerPixel(colorType)
    ensures width > 0
    ensures var bpp := BytesPerPixel(colorType);
      (width - 1) * bpp + bpp > |row|
  {
    var bpp := BytesPerPixel(colorType);
    assert (width - 1) * bpp + bpp == width * bpp;
  }

  /** One encoded tile file: its path, the "Description" text, the PNG
      header's width, height and alpha flag, and the scan-lines written. */
  datatype TileFile = TileFile(name: string, description: string, width: int, height: int,
                               rgba: bool, rows: seq<seq<byte>>)

  /** `<dirOutput>/<baseName>.<band>.<col>.png` with both indices in decimal. */
  function TileName(dirOutput: string, baseName: string, band: nat, col: nat): (n: string)
    ensures |n| >= |dirOutput| + |baseName| + 8
    ensures n[..|dirOutput| + |baseName| + 2] == dirOutput + "/" + baseName + "."
    ensures n[|n| - 4..] == ".png"
  {
    dirOutput + "/" + baseName + "." + Decimal.NatToDecimal(band) + "." + Decimal.NatToDecimal(col) + ".png"
  }

  function Zeros(n: nat): (z: seq<byte>)
    ensures |z| == n && forall j :: 0 <= j < n ==> z[j] == 0
  {
    seq(n, j => 0)
  }

  /** The n bytes of a scan-line starting at lo, zero past its end. */
  function Window(row: seq<byte>, lo: nat, n: nat): (w: seq<byte>)
    ensures |w| == n
  {
    seq(n, j requires 0 <= j < n => if lo + j < |row| then row[lo + j] else 0)
  }

  /** One tiling job: the decoded source, the tile size, the output directory
      and the base name of the source file. */
  datatype TileJob = TileJob(src: SourceImage, tileWidth: int, tileHeight: int,
                             dirOutput: string, baseName: string)
  {
    predicate Valid() {
      tileWidth > 0 && tileHeight > 0 && WellFormed(src)
    }

    function Bpp(): nat {
      BytesPerPixel(src.colorType)
    }

    /** Bytes in one scan-line of a tile. */
    function RowBytes(): nat
      requires Valid()
    {
      tileWidth * Bpp()
    }

    /** Tile columns: the least number of tileWidth-wide columns that cover the width. */
    function NumCols(): (n: nat)
      requires Valid()
      ensures n * tileWidth >= src.width
      ensures n == 0 || (n - 1) * tileWidth < src.width
    {
      CeilDiv(src.width, tileWidth)
    }

    /** Tile rows (bands): the least number of tileHeight-high bands that cover the height. */
    function NumBands(): (n: nat)
      requires Valid()
      ensures n * tileHeight >= src.height
      ensures n == 0 || (n - 1) * tileHeight < src.height
    {
      CeilDiv(src.height, tileHeight)
    }

    /** The bytes of each scan-line that the tiler reads: the first width * Bpp. */
    function Rows(): (r: seq<seq<byte>>)
      requires Valid()
      ensures |r| == |src.rows|
      ensures forall y :: 0 <= y < |r| ==> |r[y]| == src.width * Bpp()
      ensures forall y :: 0 <= y < |r| ==> r[y] <= src.rows[y]
    {
      seq(|src.rows|, y requires 0 <= y < |src.rows| => src.rows[y][..src.width * Bpp()])
    }

    /** Scan-line ty of tile (band, col): the source bytes under it, zero
        where the tile hangs over the right or bottom edge of the image. */
    function TileRow(band: nat, col: nat, ty: nat): (r: seq<byte>)
      requires Valid()
      ensures |r| == RowBytes()
    {
      var y := band * tileHeight + ty;
      if y < |src.rows| then Window(Rows()[y], col * RowBytes(), RowBytes()) else Zeros(RowBytes())
    }

    /** The tile file for grid position (band, col). */
    function Tile(band: nat, col: nat): (t: TileFile)
      requires Valid()
      ensures t.width == tileWidth && t.height == tileHeight && |t.rows| == tileHeight
      ensures forall ty :: 0 <= ty < |t.rows| ==> |t.rows[ty]| == tileWidth * Bpp()
      ensures t.rgba <==> Bpp() == 4
    {
      TileFile(TileName(dirOutput, baseName, band, col), TILE_DESCRIPTION, tileWidth, tileHeight,
               src.colorType == PNG_COLOR_TYPE_RGB_ALPHA,
               seq(tileHeight, ty requires 0 <= ty < tileHeight => TileRow(band, col, ty)))
    }

    /** The tiles of one band, left to right. */
    function BandTiles(band: nat): (ts: seq<TileFile>)
      requires Valid()
      ensures |ts| == NumCols()
    {
      seq(NumCols(), i requires 0 <= i < NumCols() => Tile(band, i))
    }

    /** The tiles of the first `bands` bands, band after band. */
    function Grid(bands: nat): seq<TileFile>
      requires Valid()
    {
      if bands == 0 then [] else Grid(bands - 1) + BandTiles(bands - 1)
    }
  }

  // ---------------------------------------------------------------------
  // Grid shape

  lemma {:induction false} GridLength(job: TileJob, bands: nat)
    requires job.Valid()
    ensures |job.Grid(bands)| == bands * job.NumCols()
  {
    if bands > 0 {
      GridLength(job, bands - 1);
      assert bands * job.NumCols() == (bands - 1) * job.NumCols() + job.NumCols();
    }
  }

  /** Tile (band, col) sits at position band * NumCols + col of the grid. */
  lemma {:induction false} GridAt(job: TileJob, bands: nat, band: nat, col: nat)
    requires job.Valid() && band < bands && col < job.NumCols()
    ensures band * job.NumCols() + col < |job.Grid(bands)|
    ensures job.Grid(bands)[band * job.NumCols() + col] == job.Tile(band, col)
  {
    GridLength(job, bands - 1);
    var n := job.NumCols();
    if band < bands - 1 {
      GridAt(job, bands - 1, band, col);
    } else {
      assert band * n + col == |job.Grid(bands - 1)| + col;
    }
  }

  /** The whole grid holds NumBands * NumCols tiles, and NumBands, NumCols are
      the least tile counts that cover the image. */
  lemma TileCount(job: TileJob)
    requires job.Valid()
    ensures |job.Grid(job.NumBands())| == job.NumBands() * job.NumCols()
    ensures job.NumCols() * job.tileWidth >= job.src.width
    ensures job.NumCols() == 0 || (job.NumCols() - 1) * job.tileWidth < job.src.width
    ensures job.NumBands() * job.tileHeight >= job.src.height
    ensures job.NumBands() == 0 || (job.NumBands() - 1) * job.tileHeight < job.src.height
  {
    GridLength(job, job.NumBands());
  }

  // ---------------------------------------------------------------------
  // Arithmetic about pixels inside a tile row

  /** Byte c of pixel x sits at x * bpp + c, and lies below w * bpp exactly when x < w. */
  lemma PixelByteBound(x: nat, c: nat, w: nat, bpp: nat)
    requires c < bpp
    ensures x * bpp + c < w * bpp <==> x < w
  {
    if x < w {
      MulLe(x + 1, w, bpp);
    } else {
      MulLe(w, x, bpp);
    }
  }

  /** Splitting a column x into tile column x / tw and offset x % tw. */
  lemma ColumnSplit(x: nat, tw: int, bpp: nat)
    requires tw > 0
    ensures (x / tw) * (tw * bpp) + (x % tw) * bpp == x * bpp
  {
    var q, r := x / tw, x % tw;
    assert x == q * tw + r;
    calc {
      x * bpp;
      (q * tw + r) * bpp;
      q * (tw * bpp) + r * bpp;
    }
  }

  // ---------------------------------------------------------------------
  // Reassembly and padding

  /** Byte c of pixel tx in scan-line ty of tile (band, col) is byte c of
      source pixel (col * tileWidth + tx, band * tileHeight + ty) when that
      pixel lies inside the image, and zero otherwise. */
  lemma TilePixel(job: TileJob, band: nat, col: nat, ty: nat, tx: nat, c: nat)
    requires job.Valid()
    requires ty < job.tileHeight && tx < job.tileWidth && c < job.Bpp()
    ensures tx * job.Bpp() + c < |job.Tile(band, col).rows[ty]|
    ensures
      var x, y := col * job.tileWidth + tx, band * job.tileHeight + ty;
      job.Tile(band, col).rows[ty][tx * job.Bpp() + c]
        == if x < job.src.width && y < job.src.height then job.src.rows[y][x * job.Bpp() + c] else 0
  {
    PixelArith(col, job.tileWidth, tx, job.Bpp(), c, job.src.width);
    assert job.Tile(band, col).rows[ty] == job.TileRow(band, col, ty);
  }

  /** The byte arithmetic behind TilePixel: byte c of pixel tx of tile column
      col is byte c of source pixel col * tw + tx, and it lies inside a
      scan-line of w pixels exactly when that pixel does. */
  lemma PixelArith(col: nat, tw: nat, tx: nat, bpp: nat, c: nat, w: nat)
    requires tx < tw && c < bpp
    ensures tx * bpp + c < tw * bpp
    ensures col * (tw * bpp) + (tx * bpp + c) == (col * tw + tx) * bpp + c
    ensures (col * tw + tx) * bpp + c < w * bpp <==> col * tw + tx < w
  {
    PixelByteBound(tx, c, tw, bpp);
    PixelByteBound(col * tw + tx, c, w, bpp);
    assert (col * tw + tx) * bpp == col * (tw * bpp) + tx * bpp;
  }

  /** Source pixel (x, y) is pixel x % tileWidth of scan-line y % tileHeight
      of tile (y / tileHeight, x / tileWidth). */
  lemma SourcePixelInTile(job: TileJob, x: nat, y: nat, c: nat)
    requires job.Valid()
    requires x < job.src.width && y < job.src.height && c < job.Bpp()
    ensures x * job.Bpp() + c < |job.src.rows[y]|
    ensures
      var t := job.Tile(y / job.tileHeight, x / job.tileWidth);
      && (x % job.tileWidth) * job.Bpp() + c < |t.rows[y % job.tileHeight]|
      && t.rows[y % job.tileHeight][(x % job.tileWidth) * job.Bpp() + c] == job.src.rows[y][x * job.Bpp() + c]
  {
    var tw, th, bpp := job.tileWidth, job.tileHeight, job.Bpp();
    var band, col, ty, tx := y / th, x / tw, y % th, x % tw;
    var t := job.Tile(band, col);
    assert col * tw + tx == x by { DivModSplit(x, tw); }
    assert band * th + ty == y by { DivModSplit(y, th); }
    assert x * bpp + c < job.src.width * bpp by { PixelByteBound(x, c, job.src.width, bpp); }
    TilePixel(job, band, col, ty, tx, c);
  }

  /** Position in the grid of the tile that covers source pixel (x, y). */
  function GridIndex(job: TileJob, x: nat, y: nat): nat
    requires job.Valid()
  {
    var band: nat, col: nat := y / job.tileHeight, x / job.tileWidth;
    MulLe(0, band, job.NumCols());
    band * job.NumCols() + col
  }

  /** Every source byte reappears in the grid: source pixel (x, y) lives in
      the tile at grid position (y / tileHeight) * NumCols + x / tileWidth,
      at pixel x % tileWidth of its scan-line y % tileHeight. */
  lemma Reassembly(job: TileJob, x: nat, y: nat, c: nat)
    requires job.Valid()
    requires x < job.src.width && y < job.src.height && c < job.Bpp()
    ensures x * job.Bpp() + c < |job.src.rows[y]|
    ensures GridIndex(job, x, y) < |job.Grid(job.NumBands())|
    ensures
      var t := job.Grid(job.NumBands())[GridIndex(job, x, y)];
      && y % job.tileHeight < |t.rows|
      && (x % job.tileWidth) * job.Bpp() + c < |t.rows[y % job.tileHeight]|
      && t.rows[y % job.tileHeight][(x % job.tileWidth) * job.Bpp() + c] == job.src.rows[y][x * job.Bpp() + c]
  {
    var band, col := y / job.tileHeight, x / job.tileWidth;
    assert col < job.NumCols() by { CeilDivCovers(x, job.src.width, job.tileWidth); }
    assert band < job.NumBands() by { CeilDivCovers(y, job.src.height, job.tileHeight); }
    GridAt(job, job.NumBands(), band, col);
    assert x * job.Bpp() + c < job.src.width * job.Bpp() by { PixelByteBound(x, c, job.src.width, job.Bpp()); }
    SourcePixelInTile(job, x, y, c);
  }

  // ---------------------------------------------------------------------
  // Tile names

  /** Index of the first '.' in s (|s| when there is none). */
  function FirstDot(s: string): (i: nat)
    ensures i <= |s|
  {
    if s == [] then 0 else if s[0] == '.' then 0 else 1 + FirstDot(s[1..])
  }

  lemma {:induction false} FirstDotAfterDigits(u: string, v: string)
    requires forall i :: 0 <= i < |u| ==> Decimal.IsDigit(u[i])
    ensures FirstDot(u + "." + v) == |u|
  {
    if u != [] {
      FirstDotAfterDigits(u[1..], v);
      assert (u + "." + v)[1..] == u[1..] + "." + v;
    }
  }

  /** Two equal names of the form `digits.rest` agree on the digits and on the rest. */
  lemma SplitAtDot(u: string, v: string, u': string, v': string)
    requires forall i :: 0 <= i < |u| ==> Decimal.IsDigit(u[i])
    requires forall i :: 0 <= i < |u'| ==> Decimal.IsDigit(u'[i])
    requires u + "." + v == u' + "." + v'
    ensures u == u' && v == v'
  {
    FirstDotAfterDigits(u, v);
    FirstDotAfterDigits(u', v');
    var s := u + "." + v;
    assert u == s[..|u|] && v == s[|u| + 1..];
    assert u' == s[..|u'|] && v' == s[|u'| + 1..];
  }

  /** Tile names determine the grid position: no two tiles of one job are
      written to the same file. */
  lemma TileNameInjective(dirOutput: string, baseName: string, b1: nat, c1: nat, b2: nat, c2: nat)
    requires TileName(dirOutput, baseName, b1, c1) == TileName(dirOutput, baseName, b2, c2)
    ensures b1 == b2 && c1 == c2
  {
    var p := dirOutput + "/" + baseName + ".";
    var d1, e1 := Decimal.NatToDecimal(b1), Decimal.NatToDecimal(c1);
    var d2, e2 := Decimal.NatToDecimal(b2), Decimal.NatToDecimal(c2);
    var n1 := TileName(dirOutput, baseName, b1, c1);
    var n2 := TileName(dirOutput, baseName, b2, c2);
    assert n1 == p + (d1 + "." + (e1 + ".png"));
    assert n2 == p + (d2 + "." + (e2 + ".png"));
    assert d1 + "." + (e1 + ".png") == n1[|p|..] == n2[|p|..] == d2 + "." + (e2 + ".png");
    SplitAtDot(d1, e1 + ".png", d2, e2 + ".png");
    assert e1 == (e1 + ".png")[..|e1|];
    assert e2 == (e2 + ".png")[..|e2|];
    Decimal.NatToDecimalInjective(b1, b2);
    Decimal.NatToDecimalInjective(c1, c2);
  }
}
