/** The tile geometry of an image directory (the `TileInfo` the write
    and read visitors of lib/ome/files/tiff/IFD.cpp consult). Its
    header is not part of this model; the definitions here follow the
    numbering of TIFF 6.0, Section 15: tiles are numbered left to
    right and top to bottom, the last column and row are padded, and
    with PlanarConfiguration 2 all tiles of sample 0 come first, then
    those of sample 1, and so on. A strip is a tile as wide as the
    image and RowsPerStrip high. */
module Tiles {
  import TC = TileCoverage
  import opened Ifd
  import opened Arith

  type PlaneRegion = TC.PlaneRegion

  /** Ceiling division: the number of `b`-sized pieces that cover `a`. */
  function CeilDiv(a: nat, b: nat): nat
    requires b > 0
  {
    (a + b - 1) / b
  }

  /** `CeilDiv(a, b)` pieces cover `a`, and one fewer would not. */
  lemma CeilDivBounds(a: nat, b: nat)
    requires b > 0
    ensures a <= CeilDiv(a, b) * b
    ensures CeilDiv(a, b) > 0 ==> (CeilDiv(a, b) - 1) * b < a
  {
    var q := (a + b - 1) / b;
    var m := (a + b - 1) % b;
    assert a + b - 1 == q * b + m;
    if q > 0 {
      assert (q - 1) * b == q * b - b;
    }
  }

  /** Division and remainder recover the two parts of `q * n + r`. */
  lemma DivModUnique(q: nat, r: nat, n: nat)
    requires r < n
    ensures (q * n + r) / n == q && (q * n + r) % n == r
  {
    var x := q * n + r;
    var d, m := x / n, x % n;
    assert x == d * n + m;
    if d > q {
      MulLe(q + 1, d, n);
    } else if d < q {
      MulLe(d + 1, q, n);
    }
  }

  /** The tile layout of one directory, with the values its getters
      return. */
  datatype TileInfo = TileInfo(tileType: TileType, tileWidth: nat, tileHeight: nat,
                               imageWidth: nat, imageHeight: nat, samples: nat,
                               planar: PlanarConfiguration) {

    predicate Valid() {
      tileWidth > 0 && tileHeight > 0
    }

    function TilesAcross(): nat
      requires Valid()
    {
      CeilDiv(imageWidth, tileWidth)
    }

    function TilesDown(): nat
      requires Valid()
    {
      CeilDiv(imageHeight, tileHeight)
    }

    function TilesPerPlane(): nat
      requires Valid()
    {
      TilesAcross() * TilesDown()
    }

    /** The number of sample planes the tiles are stored in. */
    function Planes(): nat {
      if planar == Separate then samples else 1
    }

    function TileCount(): nat
      requires Valid()
    {
      TilesPerPlane() * Planes()
    }

    /** `tileSample(tile)`: the sample plane a tile belongs to. */
    function TileSample(tile: nat): nat
      requires Valid()
    {
      if planar == Contig || TilesPerPlane() == 0 then 0 else tile / TilesPerPlane()
    }

    /** The position of a tile within its sample plane. */
    function PlaneIndex(tile: nat): nat
      requires Valid()
    {
      if TilesPerPlane() == 0 then 0 else tile % TilesPerPlane()
    }

    /** `tileRegion(tile)`: the full area of a tile in image
        coordinates, padding included. */
    function TileRegion(tile: nat): PlaneRegion
      requires Valid()
    {
      var i := PlaneIndex(tile);
      var across := TilesAcross();
      var column: nat := if across == 0 then 0 else i % across;
      var row: nat := if across == 0 then 0 else i / across;
      var x: nat := column * tileWidth;
      var y: nat := row * tileHeight;
      TC.PlaneRegion(x, y, tileWidth, tileHeight)
    }

    /** `tileRegion(tile, region)`: the part of a region a tile holds. */
    function TileRegionIn(tile: nat, region: PlaneRegion): (r: PlaneRegion)
      requires Valid()
      ensures TC.Contains(TileRegion(tile), r) || !r.Valid()
      ensures TC.Contains(region, r) || !r.Valid()
    {
      TC.Intersect(TileRegion(tile), region)
    }

    /** The tile holding pixel (x, y) of sample plane `plane`. */
    function TileAt(x: nat, y: nat, plane: nat): nat
      requires Valid()
    {
      var column: nat := x / tileWidth;
      var row: nat := y / tileHeight;
      var first: nat := plane * TilesPerPlane();
      var rowStart: nat := row * TilesAcross();
      first + rowStart + column
    }
  }

  /** Every tile belongs to one of the sample planes. */
  lemma TileSampleBound(info: TileInfo, tile: nat)
    requires info.Valid() && tile < info.TileCount()
    ensures info.TileSample(tile) < info.Planes()
  {
    if info.planar == Separate && info.TilesPerPlane() > 0 {
      var p := info.TilesPerPlane();
      assert tile == (tile / p) * p + tile % p;
      if tile / p >= info.samples {
        MulLe(info.samples, tile / p, p);
      }
    }
  }

  /** A tile number is recovered from its plane and its index in it. */
  lemma TileSplit(info: TileInfo, tile: nat)
    requires info.Valid() && tile < info.TileCount()
    ensures info.TilesPerPlane() > 0 && info.PlaneIndex(tile) < info.TilesPerPlane()
    ensures tile == info.TileSample(tile) * info.TilesPerPlane() + info.PlaneIndex(tile)
  {
    var p := info.TilesPerPlane();
    ZeroMul(p, info.Planes());
    if info.planar == Contig {
      assert tile < p;
      DivModUnique(0, tile, p);
    }
  }

  /** Every pixel of the image, in every sample plane, lies in the tile
      `TileAt` names, a tile of that plane. */
  lemma TileAtHolds(info: TileInfo, x: nat, y: nat, plane: nat)
    requires info.Valid() && x < info.imageWidth && y < info.imageHeight && plane < info.Planes()
    ensures info.TileAt(x, y, plane) < info.TileCount()
    ensures info.TileSample(info.TileAt(x, y, plane)) == (if info.planar == Separate then plane else 0)
    ensures info.TileRegion(info.TileAt(x, y, plane)).Has(x, y)
  {
    var across := info.TilesAcross();
    var column, row := x / info.tileWidth, y / info.tileHeight;
    ColumnBound(x, info.imageWidth, info.tileWidth);
    ColumnBound(y, info.imageHeight, info.tileHeight);
    var i := row * across + column;
    IndexInPlane(row, column, across, info.TilesDown());
    var tile := info.TileAt(x, y, plane);
    assert tile == plane * info.TilesPerPlane() + i;
    TileOfPlane(info, plane, i);
    RegionOfIndex(info, tile, row, column);
    DivSplit(x, info.tileWidth);
    DivSplit(y, info.tileHeight);
  }

  /** Row `row`, column `column` of a grid is index `row * across +
      column` of its `across * down` cells. */
  lemma IndexInPlane(row: nat, column: nat, across: nat, down: nat)
    requires row < down && column < across
    ensures row * across + column < across * down
    ensures (row * across + column) / across == row && (row * across + column) % across == column
  {
    MulLe(row + 1, down, across);
    DivModUnique(row, column, across);
  }

  /** Index `i` of sample plane `plane` is a tile of that plane. */
  lemma TileOfPlane(info: TileInfo, plane: nat, i: nat)
    requires info.Valid() && plane < info.Planes() && i < info.TilesPerPlane()
    ensures plane * info.TilesPerPlane() + i < info.TileCount()
    ensures info.PlaneIndex(plane * info.TilesPerPlane() + i) == i
    ensures info.TileSample(plane * info.TilesPerPlane() + i) == (if info.planar == Separate then plane else 0)
  {
    var p := info.TilesPerPlane();
    DivModUnique(plane, i, p);
    MulLe(plane + 1, info.Planes(), p);
  }

  /** The region of the tile at index `row * across + column` of its
      plane. */
  lemma RegionOfIndex(info: TileInfo, tile: nat, row: nat, column: nat)
    requires info.Valid() && column < info.TilesAcross()
    requires info.PlaneIndex(tile) == row * info.TilesAcross() + column
    ensures info.TileRegion(tile) == TC.PlaneRegion(column * info.tileWidth, row * info.tileHeight,
                                                     info.tileWidth, info.tileHeight)
  {
    DivModUnique(row, column, info.TilesAcross());
  }

  lemma ZeroMul(a: nat, b: nat)
    ensures a == 0 ==> a * b == 0
  {
  }

  /** A pixel at `a` lies in piece `a / b` of width `b`. */
  lemma DivSplit(a: nat, b: nat)
    requires b > 0
    ensures (a / b) * b <= a < (a / b) * b + b
  {
  }

  /** The piece holding `a < n` is one of the `CeilDiv(n, b)` pieces. */
  lemma ColumnBound(a: nat, n: nat, b: nat)
    requires b > 0 && a < n
    ensures a / b < CeilDiv(n, b)
  {
    var c := CeilDiv(n, b);
    DivSplit(a, b);
    if a / b >= c {
      MulLe(c, a / b, b);
    }
  }

  /** A pixel lies in exactly one tile of each sample plane: any tile of
      that plane whose region holds it is the one `TileAt` names. */
  lemma TileAtUnique(info: TileInfo, tile: nat, x: nat, y: nat)
    requires info.Valid() && tile < info.TileCount() && info.TileRegion(tile).Has(x, y)
    ensures tile == info.TileAt(x, y, info.TileSample(tile))
  {
    TileSplit(info, tile);
    var across := info.TilesAcross();
    var i := info.PlaneIndex(tile);
    ZeroMul(across, info.TilesDown());
    var column, row := i % across, i / across;
    assert i == row * across + column;
    InPiece(x, column, info.tileWidth);
    InPiece(y, row, info.tileHeight);
  }

  /** A pixel of piece `c` of width `b` divides back to `c`. */
  lemma InPiece(a: nat, c: nat, b: nat)
    requires b > 0 && c * b <= a < c * b + b
    ensures a / b == c
  {
    DivModUnique(c, a - c * b, b);
  }
}
