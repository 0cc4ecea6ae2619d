/** The state an image file directory keeps beside libtiff
    (`IFD::Impl` in lib/ome/files/tiff/IFD.cpp): the tag values it
    caches once read or set, and, for writing, the per-sample tile
    coverage and the cache of partly written tiles.

    The tags themselves live in libtiff's directory; here they are a
    map from tag to value, and reading a tag that is absent (or holds
    a value of another kind) is the error `getField().get()` throws. */
module IfdDirectory {
  import opened Wrappers
  import opened PixelProperties
  import opened Ifd
  import TC = TileCoverage
  import opened Tiles

  type PlaneRegion = TC.PlaneRegion

  /** The tags the cached getters and setters read and write. */
  datatype Tag =
    | TagImageWidth | TagImageLength | TagTileWidth | TagTileLength | TagRowsPerStrip
    | TagSampleFormat | TagBitsPerSample | TagSamplesPerPixel | TagPlanarConfig

  datatype TagValue = Number(n: nat) | Format(format: SampleFormat) | Config(planar: PlanarConfiguration)

  const MissingTag := TiffError("Failed to get field")

  /** `getField(tag).get(value)` for a numeric tag. */
  function NumberTag(tags: map<Tag, TagValue>, tag: Tag): (r: Result<nat>)
    ensures r.Ok? <==> tag in tags && tags[tag].Number?
    ensures r.Ok? ==> tags[tag] == Number(r.value)
  {
    if tag in tags && tags[tag].Number? then Ok(tags[tag].n) else Err(MissingTag)
  }

  /** The cached tag values and the tags, as one value. */
  datatype DirState = DirState(
    tags: map<Tag, TagValue>,
    tiletype: Option<TileType>,
    imagewidth: Option<nat>,
    imageheight: Option<nat>,
    tilewidth: Option<nat>,
    tileheight: Option<nat>,
    pixeltype: Option<PixelType>,
    bits: Option<nat>,
    samples: Option<nat>,
    planarconfig: Option<PlanarConfiguration>)

  /** A directory nothing has been read from: every cache is empty. */
  function Fresh(tags: map<Tag, TagValue>): DirState {
    DirState(tags, None, None, None, None, None, None, None, None, None)
  }

  // ---------------------------------------------------------------
  // What each getter returns.

  function ImageWidthOf(s: DirState): (r: Result<nat>)
    ensures s.imagewidth.Some? ==> r == Ok(s.imagewidth.value)
    ensures s.imagewidth.None? ==> r == NumberTag(s.tags, TagImageWidth)
  {
    if s.imagewidth.Some? then Ok(s.imagewidth.value) else NumberTag(s.tags, TagImageWidth)
  }

  function ImageHeightOf(s: DirState): (r: Result<nat>)
    ensures s.imageheight.Some? ==> r == Ok(s.imageheight.value)
    ensures s.imageheight.None? ==> r == NumberTag(s.tags, TagImageLength)
  {
    if s.imageheight.Some? then Ok(s.imageheight.value) else NumberTag(s.tags, TagImageLength)
  }

  /** `getTileType`: tiled when both TileWidth and TileLength can be
      read, otherwise stripped when RowsPerStrip can be, otherwise an
      error. */
  function TileTypeOf(s: DirState): (r: Result<TileType>)
    ensures s.tiletype.Some? ==> r == Ok(s.tiletype.value)
    ensures s.tiletype.None? ==>
      (r == Ok(Tile) <==> NumberTag(s.tags, TagTileWidth).Ok? && NumberTag(s.tags, TagTileLength).Ok?)
    ensures s.tiletype.None? ==>
      (r == Ok(Strip) <==> !(NumberTag(s.tags, TagTileWidth).Ok? && NumberTag(s.tags, TagTileLength).Ok?)
                           && NumberTag(s.tags, TagRowsPerStrip).Ok?)
  {
    if s.tiletype.Some? then Ok(s.tiletype.value)
    else if NumberTag(s.tags, TagTileWidth).Ok? && NumberTag(s.tags, TagTileLength).Ok? then Ok(Tile)
    else if NumberTag(s.tags, TagRowsPerStrip).Ok? then Ok(Strip)
    else Err(MissingTag)
  }

  /** `getTileWidth`: TileWidth for tiles; a strip is as wide as the
      image. */
  function TileWidthOf(s: DirState): (r: Result<nat>)
    ensures s.tilewidth.Some? ==> r == Ok(s.tilewidth.value)
    ensures s.tilewidth.None? && TileTypeOf(s) == Ok(Tile) ==> r == NumberTag(s.tags, TagTileWidth)
    ensures s.tilewidth.None? && TileTypeOf(s) == Ok(Strip) ==> r == ImageWidthOf(s)
    ensures s.tilewidth.None? && TileTypeOf(s).Err? ==> r.Err?
  {
    if s.tilewidth.Some? then Ok(s.tilewidth.value)
    else match TileTypeOf(s)
      case Err(e) => Err(e)
      case Ok(Tile) => NumberTag(s.tags, TagTileWidth)
      case Ok(Strip) => ImageWidthOf(s)
  }

  /** `getTileHeight`: TileLength for tiles, RowsPerStrip for strips. */
  function TileHeightOf(s: DirState): (r: Result<nat>)
    ensures s.tileheight.Some? ==> r == Ok(s.tileheight.value)
    ensures s.tileheight.None? && TileTypeOf(s) == Ok(Tile) ==> r == NumberTag(s.tags, TagTileLength)
    ensures s.tileheight.None? && TileTypeOf(s) == Ok(Strip) ==> r == NumberTag(s.tags, TagRowsPerStrip)
    ensures s.tileheight.None? && TileTypeOf(s).Err? ==> r.Err?
  {
    if s.tileheight.Some? then Ok(s.tileheight.value)
    else match TileTypeOf(s)
      case Err(e) => Err(e)
      case Ok(Tile) => NumberTag(s.tags, TagTileLength)
      case Ok(Strip) => NumberTag(s.tags, TagRowsPerStrip)
  }

  function BitsOf(s: DirState): (r: Result<nat>)
    ensures s.bits.Some? ==> r == Ok(s.bits.value)
    ensures s.bits.None? ==> r == NumberTag(s.tags, TagBitsPerSample)
  {
    if s.bits.Some? then Ok(s.bits.value) else NumberTag(s.tags, TagBitsPerSample)
  }

  function SamplesOf(s: DirState): (r: Result<nat>)
    ensures s.samples.Some? ==> r == Ok(s.samples.value)
    ensures s.samples.None? ==> r == NumberTag(s.tags, TagSamplesPerPixel)
  {
    if s.samples.Some? then Ok(s.samples.value) else NumberTag(s.tags, TagSamplesPerPixel)
  }

  function PlanarOf(s: DirState): (r: Result<PlanarConfiguration>)
    ensures s.planarconfig.Some? ==> r == Ok(s.planarconfig.value)
    ensures s.planarconfig.None? ==>
      (r.Ok? <==> TagPlanarConfig in s.tags && s.tags[TagPlanarConfig].Config?)
  {
    if s.planarconfig.Some? then Ok(s.planarconfig.value)
    else if TagPlanarConfig in s.tags && s.tags[TagPlanarConfig].Config? then Ok(s.tags[TagPlanarConfig].planar)
    else Err(MissingTag)
  }

  /** The SampleFormat tag, or unsigned integer when it cannot be read. */
  function FormatOrDefault(tags: map<Tag, TagValue>): (f: SampleFormat)
    ensures TagSampleFormat in tags && tags[TagSampleFormat].Format? ==> f == tags[TagSampleFormat].format
    ensures !(TagSampleFormat in tags && tags[TagSampleFormat].Format?) ==> f == UnsignedInt
  {
    SampleFormatOrDefault(if TagSampleFormat in tags && tags[TagSampleFormat].Format?
                          then Some(tags[TagSampleFormat].format) else None)
  }

  /** `getPixelType`: the type set earlier, or the decoding of the
      SampleFormat (unsigned by default) and BitsPerSample tags. */
  function PixelTypeOf(s: DirState): (r: Result<PixelType>)
    ensures s.pixeltype.Some? ==> r == Ok(s.pixeltype.value)
    ensures s.pixeltype.None? && BitsOf(s).Err? ==> r.Err?
    ensures s.pixeltype.None? && BitsOf(s).Ok? ==> r == DecodePixelType(FormatOrDefault(s.tags), BitsOf(s).value)
  {
    if s.pixeltype.Some? then Ok(s.pixeltype.value)
    else match BitsOf(s)
      case Err(e) => Err(e)
      case Ok(bits) => DecodePixelType(FormatOrDefault(s.tags), bits)
  }

  // ---------------------------------------------------------------
  // What the getters leave cached. A getter that fails caches nothing
  // beyond what the getters it called cached.

  function FillImageWidth(s: DirState): (t: DirState)
    ensures ImageWidthOf(t) == ImageWidthOf(s)
  {
    if s.imagewidth.None? && ImageWidthOf(s).Ok? then s.(imagewidth := Some(ImageWidthOf(s).value)) else s
  }

  function FillTileType(s: DirState): (t: DirState)
    ensures TileTypeOf(t) == TileTypeOf(s)
  {
    if s.tiletype.None? && TileTypeOf(s).Ok? then s.(tiletype := Some(TileTypeOf(s).value)) else s
  }

  function FillBits(s: DirState): (t: DirState)
    ensures BitsOf(t) == BitsOf(s)
  {
    if s.bits.None? && BitsOf(s).Ok? then s.(bits := Some(BitsOf(s).value)) else s
  }

  /** `getTileWidth` caches the tile type first, then (for strips) the
      image width, then the tile width itself. */
  function FillTileWidth(s: DirState): (t: DirState)
  {
    if s.tilewidth.Some? then s
    else
      var s1 := FillTileType(s);
      var s2 := if TileTypeOf(s) == Ok(Strip) then FillImageWidth(s1) else s1;
      if TileWidthOf(s).Ok? then s2.(tilewidth := Some(TileWidthOf(s).value)) else s2
  }

  /** `getTileHeight` caches the tile type first, then the height. */
  function FillTileHeight(s: DirState): (t: DirState)
  {
    if s.tileheight.Some? then s
    else
      var s1 := FillTileType(s);
      if TileHeightOf(s).Ok? then s1.(tileheight := Some(TileHeightOf(s).value)) else s1
  }

  /** `getPixelType` caches only the bits it reads, and nothing when the
      type was set. */
  function FillPixelType(s: DirState): (t: DirState)
    ensures PixelTypeOf(t) == PixelTypeOf(s)
  {
    if s.pixeltype.None? then FillBits(s) else s
  }

  // ---------------------------------------------------------------
  // The setters, as changes of state.

  function WithPixelType(s: DirState, t: PixelType): (u: DirState)
  {
    s.(tags := s.tags[TagSampleFormat := Format(SampleFormatOf(t))], pixeltype := Some(t))
  }

  /** `setTileWidth`: recorded for tiles only; for strips it does
      nothing (beyond caching the tile type it looked up). */
  function WithTileWidth(s: DirState, w: nat): (r: Result<DirState>)
  {
    match TileTypeOf(s)
    case Err(e) => Err(e)
    case Ok(Tile) => Ok(FillTileType(s).(tags := s.tags[TagTileWidth := Number(w)], tilewidth := Some(w)))
    case Ok(Strip) => Ok(FillTileType(s))
  }

  /** `setTileHeight`: TileLength for tiles, RowsPerStrip for strips. */
  function WithTileHeight(s: DirState, h: nat): (r: Result<DirState>)
  {
    match TileTypeOf(s)
    case Err(e) => Err(e)
    case Ok(tt) =>
      var tag := if tt == Tile then TagTileLength else TagRowsPerStrip;
      Ok(FillTileType(s).(tags := s.tags[tag := Number(h)], tileheight := Some(h)))
  }

  /** `setBitsPerSample`: the request cut down to the significant bits
      of the current pixel type, which must be known. */
  function WithBitsPerSample(s: DirState, b: nat): (r: Result<DirState>)
  {
    var s1 := FillPixelType(s);
    match PixelTypeOf(s)
    case Err(e) => Err(e)
    case Ok(t) =>
      var stored := ClampBits(b, t);
      Ok(s1.(tags := s.tags[TagBitsPerSample := Number(stored)], bits := Some(stored)))
  }

  // ---------------------------------------------------------------
  // Properties of the getters and setters.

  /** A pixel type that was set is the one read back, whatever the
      directory held before. */
  lemma PixelTypeSetGet(s: DirState, t: PixelType)
    ensures PixelTypeOf(WithPixelType(s, t)) == Ok(t)
    ensures FormatOrDefault(WithPixelType(s, t).tags) == SampleFormatOf(t)
  {
  }

  /** On a directory read from a file (nothing cached), the pixel type
      the writer recorded (its SampleFormat, and the bits it asked for
      after clamping) decodes to the same type. */
  lemma PixelTypeWrittenReadBack(tags: map<Tag, TagValue>, t: PixelType)
    ensures var written := tags[TagSampleFormat := Format(SampleFormatOf(t))]
                               [TagBitsPerSample := Number(ClampBits(BitsPerPixel(t), t))];
      PixelTypeOf(Fresh(written)) == Ok(t)
  {
    PixelTypeRoundTrip(t);
  }

  /** A missing SampleFormat tag reads as unsigned integer. */
  lemma MissingFormatIsUnsigned(s: DirState, bits: nat)
    requires s.pixeltype.None? && TagSampleFormat !in s.tags && BitsOf(s) == Ok(bits)
    ensures PixelTypeOf(s) == DecodePixelType(UnsignedInt, bits)
    ensures bits == 8 ==> PixelTypeOf(s) == Ok(UInt8)
    ensures bits == 1 ==> PixelTypeOf(s) == Ok(Bit)
  {
  }

  /** `setBitsPerSample` stores at most the significant bits of the
      pixel type, and exactly the request when it is not above them. */
  lemma BitsClamped(s: DirState, b: nat)
    requires PixelTypeOf(s).Ok?
    ensures WithBitsPerSample(s, b).Ok?
    ensures BitsOf(WithBitsPerSample(s, b).value) == Ok(ClampBits(b, PixelTypeOf(s).value))
    ensures BitsOf(WithBitsPerSample(s, b).value).value <= SignificantBitsPerPixel(PixelTypeOf(s).value)
    ensures b <= SignificantBitsPerPixel(PixelTypeOf(s).value) ==> BitsOf(WithBitsPerSample(s, b).value) == Ok(b)
  {
  }

  /** Without a known pixel type `setBitsPerSample` fails. */
  lemma BitsNeedPixelType(s: DirState, b: nat)
    requires PixelTypeOf(s).Err?
    ensures WithBitsPerSample(s, b).Err?
  {
  }

  /** Setting the tile width of a tiled directory is read back; for a
      stripped one the width read stays that of the image. */
  lemma TileWidthSetGet(s: DirState, w: nat)
    requires TileTypeOf(s).Ok?
    ensures WithTileWidth(s, w).Ok?
    ensures TileTypeOf(s) == Ok(Tile) ==> TileWidthOf(WithTileWidth(s, w).value) == Ok(w)
    ensures TileTypeOf(s) == Ok(Strip) ==> TileWidthOf(WithTileWidth(s, w).value) == TileWidthOf(s)
    ensures TileTypeOf(WithTileWidth(s, w).value) == TileTypeOf(s)
  {
  }

  /** Setting the tile height is read back for tiles and strips alike,
      and leaves the tile type as it was. */
  lemma TileHeightSetGet(s: DirState, h: nat)
    requires TileTypeOf(s).Ok?
    ensures WithTileHeight(s, h).Ok?
    ensures TileHeightOf(WithTileHeight(s, h).value) == Ok(h)
    ensures TileTypeOf(WithTileHeight(s, h).value) == TileTypeOf(s)
  {
  }

  /** A strip directory read from a file has the image's width as its
      tile width and RowsPerStrip as its tile height. */
  lemma StripGeometry(tags: map<Tag, TagValue>)
    requires NumberTag(tags, TagRowsPerStrip).Ok?
    requires !(NumberTag(tags, TagTileWidth).Ok? && NumberTag(tags, TagTileLength).Ok?)
    ensures TileTypeOf(Fresh(tags)) == Ok(Strip)
    ensures TileWidthOf(Fresh(tags)) == NumberTag(tags, TagImageWidth)
    ensures TileHeightOf(Fresh(tags)) == NumberTag(tags, TagRowsPerStrip)
  {
  }

  /** Filling the tile width cache changes no getter's answer, and a
      second fill changes nothing. */
  lemma FillTileWidthKeeps(s: DirState)
    ensures TileWidthOf(FillTileWidth(s)) == TileWidthOf(s)
    ensures TileTypeOf(FillTileWidth(s)) == TileTypeOf(s)
    ensures ImageWidthOf(FillTileWidth(s)) == ImageWidthOf(s)
    ensures FillTileWidth(FillTileWidth(s)) == FillTileWidth(s)
    ensures TileWidthOf(s).Ok? ==> FillTileWidth(s).tilewidth == Some(TileWidthOf(s).value)
  {
  }

  /** Filling the tile height cache changes no getter's answer, and a
      second fill changes nothing. */
  lemma FillTileHeightKeeps(s: DirState)
    ensures TileHeightOf(FillTileHeight(s)) == TileHeightOf(s)
    ensures TileTypeOf(FillTileHeight(s)) == TileTypeOf(s)
    ensures FillTileHeight(FillTileHeight(s)) == FillTileHeight(s)
    ensures TileHeightOf(s).Ok? ==> FillTileHeight(s).tileheight == Some(TileHeightOf(s).value)
  {
  }

  /** Reading the pixel type twice gives the same answer and leaves the
      same state as reading it once. */
  lemma PixelTypeReadTwice(s: DirState)
    ensures PixelTypeOf(FillPixelType(s)) == PixelTypeOf(s)
    ensures FillPixelType(FillPixelType(s)) == FillPixelType(s)
    ensures FillPixelType(s).pixeltype == s.pixeltype
  {
  }

  // ---------------------------------------------------------------
  // The directory object.

  class Directory {
    var tags: map<Tag, TagValue>
    var tiletype: Option<TileType>
    var imagewidth: Option<nat>
    var imageheight: Option<nat>
    var tilewidth: Option<nat>
    var tileheight: Option<nat>
    var pixeltype: Option<PixelType>
    var bits: Option<nat>
    var samples: Option<nat>
    var planarconfig: Option<PlanarConfiguration>

    function State(): DirState
      reads this
    {
      DirState(tags, tiletype, imagewidth, imageheight, tilewidth, tileheight, pixeltype, bits, samples, planarconfig)
    }

    /** A directory opened on a file: nothing cached yet. */
    constructor(t: map<Tag, TagValue>)
      ensures State() == Fresh(t)
    {
      tags := t;
      tiletype, imagewidth, imageheight, tilewidth, tileheight := None, None, None, None, None;
      pixeltype, bits, samples, planarconfig := None, None, None, None;
    }

    method GetImageWidth() returns (r: Result<nat>)
      modifies this
      ensures r == old(ImageWidthOf(State()))
      ensures State() == FillImageWidth(old(State()))
    {
      if imagewidth.None? {
        var w := NumberTag(tags, TagImageWidth);
        if w.Err? {
          return w;
        }
        imagewidth := Some(w.value);
      }
      r := Ok(imagewidth.value);
    }

    method SetImageWidth(w: nat)
      modifies this
      ensures State() == old(State()).(tags := old(tags)[TagImageWidth := Number(w)], imagewidth := Some(w))
      ensures ImageWidthOf(State()) == Ok(w)
    {
      tags := tags[TagImageWidth := Number(w)];
      imagewidth := Some(w);
    }

    method GetImageHeight() returns (r: Result<nat>)
      modifies this
      ensures r == old(ImageHeightOf(State()))
      ensures r.Ok? ==> State() == old(State()).(imageheight := Some(r.value))
      ensures r.Err? ==> State() == old(State())
    {
      if imageheight.None? {
        var h := NumberTag(tags, TagImageLength);
        if h.Err? {
          return h;
        }
        imageheight := Some(h.value);
      }
      r := Ok(imageheight.value);
    }

    method SetImageHeight(h: nat)
      modifies this
      ensures State() == old(State()).(tags := old(tags)[TagImageLength := Number(h)], imageheight := Some(h))
    {
      tags := tags[TagImageLength := Number(h)];
      imageheight := Some(h);
    }

    method GetTileType() returns (r: Result<TileType>)
      modifies this
      ensures r == old(TileTypeOf(State()))
      ensures State() == FillTileType(old(State()))
    {
      if tiletype.None? {
        var w := NumberTag(tags, TagTileWidth);
        var h := NumberTag(tags, TagTileLength);
        if w.Ok? && h.Ok? {
          tiletype := Some(Tile);
        } else {
          var rows := NumberTag(tags, TagRowsPerStrip);
          if rows.Err? {
            return Err(rows.error);
          }
          tiletype := Some(Strip);
        }
      }
      r := Ok(tiletype.value);
    }

    method SetTileType(t: TileType)
      modifies this
      ensures State() == old(State()).(tiletype := Some(t))
    {
      tiletype := Some(t);
    }

    method GetTileWidth() returns (r: Result<nat>)
      modifies this
      ensures r == old(TileWidthOf(State()))
      ensures State() == FillTileWidth(old(State()))
    {
      if tilewidth.None? {
        var t := GetTileType();
        if t.Err? {
          return Err(t.error);
        }
        if t.value == Tile {
          var w := NumberTag(tags, TagTileWidth);
          if w.Err? {
            return w;
          }
          tilewidth := Some(w.value);
        } else {
          var w := GetImageWidth();
          if w.Err? {
            return w;
          }
          tilewidth := Some(w.value);
        }
      }
      r := Ok(tilewidth.value);
    }

    method SetTileWidth(w: nat) returns (r: Outcome)
      modifies this
      ensures old(WithTileWidth(State(), w)).Err? ==> r.Fail? && State() == old(State())
      ensures old(WithTileWidth(State(), w)).Ok? ==> r.Pass? && State() == old(WithTileWidth(State(), w).value)
    {
      var t := GetTileType();
      if t.Err? {
        return Fail(t.error);
      }
      if t.value == Tile {
        tags := tags[TagTileWidth := Number(w)];
        tilewidth := Some(w);
      }
      r := Pass;
    }

    method GetTileHeight() returns (r: Result<nat>)
      modifies this
      ensures r == old(TileHeightOf(State()))
      ensures State() == FillTileHeight(old(State()))
    {
      if tileheight.None? {
        var t := GetTileType();
        if t.Err? {
          return Err(t.error);
        }
        var h := NumberTag(tags, if t.value == Tile then TagTileLength else TagRowsPerStrip);
        if h.Err? {
          return h;
        }
        tileheight := Some(h.value);
      }
      r := Ok(tileheight.value);
    }

    method SetTileHeight(h: nat) returns (r: Outcome)
      modifies this
      ensures old(WithTileHeight(State(), h)).Err? ==> r.Fail? && State() == old(State())
      ensures old(WithTileHeight(State(), h)).Ok? ==> r.Pass? && State() == old(WithTileHeight(State(), h).value)
    {
      var t := GetTileType();
      if t.Err? {
        return Fail(t.error);
      }
      if t.value == Tile {
        tags := tags[TagTileLength := Number(h)];
      } else {
        tags := tags[TagRowsPerStrip := Number(h)];
      }
      tileheight := Some(h);
      r := Pass;
    }

    method GetBitsPerSample() returns (r: Result<nat>)
      modifies this
      ensures r == old(BitsOf(State()))
      ensures State() == FillBits(old(State()))
    {
      if bits.None? {
        var b := NumberTag(tags, TagBitsPerSample);
        if b.Err? {
          return b;
        }
        bits := Some(b.value);
      }
      r := Ok(bits.value);
    }

    /** `getPixelType` does not cache what it decodes; only the bits
        it reads are cached. */
    method GetPixelType() returns (r: Result<PixelType>)
      modifies this
      ensures r == old(PixelTypeOf(State()))
      ensures State() == FillPixelType(old(State()))
    {
      if pixeltype.Some? {
        return Ok(pixeltype.value);
      }
      var format := FormatOrDefault(tags);
      var b := GetBitsPerSample();
      if b.Err? {
        return Err(b.error);
      }
      r := DecodePixelType(format, b.value);
    }

    method SetPixelType(t: PixelType)
      modifies this
      ensures State() == WithPixelType(old(State()), t)
    {
      tags := tags[TagSampleFormat := Format(SampleFormatOf(t))];
      pixeltype := Some(t);
    }

    method SetBitsPerSample(b: nat) returns (r: Outcome)
      modifies this
      ensures old(WithBitsPerSample(State(), b)).Err? ==> r.Fail? && State() == FillPixelType(old(State()))
      ensures old(WithBitsPerSample(State(), b)).Ok? ==> r.Pass? && State() == old(WithBitsPerSample(State(), b).value)
    {
      var t := GetPixelType();
      if t.Err? {
        return Fail(t.error);
      }
      var stored := ClampBits(b, t.value);
      tags := tags[TagBitsPerSample := Number(stored)];
      bits := Some(stored);
      r := Pass;
    }

    method GetSamplesPerPixel() returns (r: Result<nat>)
      modifies this
      ensures r == old(SamplesOf(State()))
      ensures r.Ok? ==> State() == old(State()).(samples := Some(r.value))
      ensures r.Err? ==> State() == old(State())
    {
      if samples.None? {
        var n := NumberTag(tags, TagSamplesPerPixel);
        if n.Err? {
          return n;
        }
        samples := Some(n.value);
      }
      r := Ok(samples.value);
    }

    method SetSamplesPerPixel(n: nat)
      modifies this
      ensures State() == old(State()).(tags := old(tags)[TagSamplesPerPixel := Number(n)], samples := Some(n))
    {
      tags := tags[TagSamplesPerPixel := Number(n)];
      samples := Some(n);
    }

    method GetPlanarConfiguration() returns (r: Result<PlanarConfiguration>)
      modifies this
      ensures r == old(PlanarOf(State()))
      ensures r.Ok? ==> State() == old(State()).(planarconfig := Some(r.value))
      ensures r.Err? ==> State() == old(State())
    {
      if planarconfig.None? {
        if !(TagPlanarConfig in tags && tags[TagPlanarConfig].Config?) {
          return Err(MissingTag);
        }
        planarconfig := Some(tags[TagPlanarConfig].planar);
      }
      r := Ok(planarconfig.value);
    }

    method SetPlanarConfiguration(p: PlanarConfiguration)
      modifies this
      ensures State() == old(State()).(tags := old(tags)[TagPlanarConfig := Config(p)], planarconfig := Some(p))
    {
      tags := tags[TagPlanarConfig := Config(p)];
      planarconfig := Some(p);
    }
  }

  // ---------------------------------------------------------------
  // Write bookkeeping: the per-sample tile coverage and the cache of
  // tiles whose buffers are still being filled, shared by the copies
  // of a directory (the `WriteVisitor` of IFD.cpp). What the buffers
  // hold is modelled by `Ifd.WriteTransfer`; here a tile is either
  // cached (its buffer is open) or has been written out.

  /** The whole image, as a region. */
  function ImageRegion(info: TileInfo): (r: PlaneRegion)
    ensures r.x == 0 && r.y == 0 && r.w == info.imageWidth && r.h == info.imageHeight
  {
    TC.PlaneRegion(0, 0, info.imageWidth, info.imageHeight)
  }

  /** The part of a tile inside the image: what must be covered before
      the tile is written. */
  function ValidArea(info: TileInfo, tile: nat): (r: PlaneRegion)
    requires info.Valid()
    ensures r.Valid() ==> TC.Contains(info.TileRegion(tile), r) && TC.Contains(ImageRegion(info), r)
  {
    TC.Intersect(info.TileRegion(tile), ImageRegion(info))
  }

  /** `flush` writes a tile out once every pixel of its part inside the
      image is covered by what was written to its sample plane. */
  predicate FlushDue(info: TileInfo, boxes: seq<TC.Box>, tile: nat)
    requires info.Valid() && TC.AllProper(boxes)
  {
    ValidArea(info, tile).Area() > 0 && TC.CoveredArea(boxes, ValidArea(info, tile)) == ValidArea(info, tile).Area()
  }

  /** The coverage a tile's writes are recorded in: its own sample
      plane when planes are separate, the single one otherwise. */
  function DestSample(info: TileInfo, tile: nat): (d: nat)
    requires info.Valid()
    ensures info.planar == Separate ==> d == info.TileSample(tile)
    ensures info.planar == Contig ==> d == 0
  {
    if info.planar == Separate then info.TileSample(tile) else 0
  }

  /** The coverage written into is the one `flush` consults. */
  lemma DestIsTileSample(info: TileInfo, tile: nat)
    requires info.Valid()
    ensures DestSample(info, tile) == info.TileSample(tile)
    ensures tile < info.TileCount() ==> DestSample(info, tile) < info.Planes()
  {
    if tile < info.TileCount() {
      TileSampleBound(info, tile);
    }
  }

  /** A tile lying wholly inside the image and the written region, once
      its clipped region is covered, is due: its clipped region is its
      valid area. */
  lemma WholeTileDue(info: TileInfo, region: PlaneRegion, boxes: seq<TC.Box>, tile: nat)
    requires info.Valid() && TC.AllProper(boxes)
    requires TC.Contains(ImageRegion(info), info.TileRegion(tile))
    requires TC.Contains(region, info.TileRegion(tile))
    requires TC.CoveredArea(boxes, info.TileRegionIn(tile, region)) == info.TileRegionIn(tile, region).Area()
    ensures info.TileRegionIn(tile, region) == ValidArea(info, tile)
    ensures FlushDue(info, boxes, tile)
  {
    var full := info.TileRegion(tile);
    TC.IntersectContained(full, region);
    TC.IntersectContained(full, ImageRegion(info));
    TC.AreaZero(full);
  }

  /** What `insert` of a tile's clipped region leaves in its coverage:
      the region covered when none of it was, nothing changed when some
      of it was, and the boxes still disjoint. */
  predicate Recorded(info: TileInfo, region: PlaneRegion, tile: nat, before: seq<TC.Box>, after: seq<TC.Box>)
    requires info.Valid()
  {
    var rclip := info.TileRegionIn(tile, region);
    && (TC.NoOverlap(before) ==> TC.NoOverlap(after))
    && (TC.AllProper(before) && TC.AllProper(after) ==>
          (TC.CoveredArea(before, rclip) == 0 ==> TC.CoveredArea(after, rclip) == rclip.Area())
          && (TC.CoveredArea(before, rclip) != 0 ==> after == before))
  }

  class WriteCache {
    /** One coverage per sample plane of the tiles (one when contiguous). */
    var coverage: seq<TC.TileCoverage>
    /** Tiles with an open buffer. */
    var cache: set<nat>
    /** Tiles written out to the file, in order. */
    var written: seq<nat>

    ghost predicate Valid()
      reads this, coverage
    {
      && (forall i, j :: 0 <= i < j < |coverage| ==> coverage[i] != coverage[j])
      && (forall i :: 0 <= i < |coverage| ==> coverage[i].Valid())
    }

    constructor()
      ensures Valid() && coverage == [] && cache == {} && written == []
    {
      coverage, cache, written := [], {}, [];
    }

    /** `tilecoverage.resize(n)`: keeps the first `n` coverages and adds
        empty ones up to `n`. */
    method ResizeCoverage(n: nat)
      requires Valid()
      modifies this
      ensures Valid() && |coverage| == n
      ensures coverage[..Min(n, |old(coverage)|)] == old(coverage)[..Min(n, |old(coverage)|)]
      ensures forall i :: |old(coverage)| <= i < n ==> fresh(coverage[i]) && coverage[i].boxes == []
      ensures forall i :: 0 <= i < n ==> coverage[i] in old(coverage) || fresh(coverage[i])
      ensures cache == old(cache) && written == old(written)
    {
      if n <= |coverage| {
        coverage := coverage[..n];
      } else {
        ghost var before := coverage;
        while |coverage| < n
          invariant |before| <= |coverage| <= n && coverage[..|before|] == before
          invariant forall i :: |before| <= i < |coverage| ==> fresh(coverage[i]) && coverage[i].boxes == []
          invariant Valid() && cache == old(cache) && written == old(written)
          decreases n - |coverage|
        {
          var c := new TC.TileCoverage();
          coverage := coverage + [c];
        }
      }
    }

    /** `flush(tile)`: writes the tile out and drops its buffer when it
        is due, and otherwise does nothing. */
    method Flush(info: TileInfo, tile: nat)
      requires Valid() && info.Valid() && info.TileSample(tile) < |coverage|
      modifies this
      ensures coverage == old(coverage)
      ensures FlushDue(info, coverage[info.TileSample(tile)].boxes, tile) ==>
        written == old(written) + [tile] && cache == old(cache) - {tile}
      ensures !FlushDue(info, coverage[info.TileSample(tile)].boxes, tile) ==>
        written == old(written) && cache == old(cache)
    {
      var validarea := ValidArea(info, tile);
      if validarea.w * validarea.h == 0 {
        return;
      }
      var c := coverage[info.TileSample(tile)].Covered(validarea);
      if !c {
        return;
      }
      written := written + [tile];
      cache := cache - {tile};
    }

    /** One tile of `operator()`: opens the tile's buffer if it has
        none, records the clipped region in the tile's coverage, and
        flushes the tile. A coverage index past the end is the
        out-of-range error of `tilecoverage.at`. */
    method WriteTile(info: TileInfo, region: PlaneRegion, tile: nat, coalesce: bool) returns (r: Outcome)
      requires Valid() && info.Valid()
      modifies this, coverage
      ensures Valid() && coverage == old(coverage)
      ensures r.Fail? <==> DestSample(info, tile) >= |coverage|
      ensures r.Fail? ==> cache == old(cache) + {tile} && written == old(written)
      ensures written == old(written) ==> cache == old(cache) + {tile}
      ensures written != old(written) ==> written == old(written) + [tile] && cache == old(cache) - {tile}
      ensures r.Pass? ==> Recorded(info, region, tile, old(coverage[DestSample(info, tile)].boxes),
                                   coverage[DestSample(info, tile)].boxes)
      ensures r.Pass? ==> (written != old(written) <==> FlushDue(info, coverage[DestSample(info, tile)].boxes, tile))
      ensures forall i :: 0 <= i < |coverage| && i != DestSample(info, tile) ==>
        coverage[i].boxes == old(coverage[i].boxes)
    {
      cache := cache + {tile};
      if DestSample(info, tile) >= |coverage| {
        return Fail(LogicError("tile coverage index out of range"));
      }
      RecordTile(info, region, tile, coalesce);
      r := Pass;
    }

    /** The coverage and flush steps of `WriteTile`. */
    method RecordTile(info: TileInfo, region: PlaneRegion, tile: nat, coalesce: bool)
      requires Valid() && info.Valid() && DestSample(info, tile) < |coverage|
      modifies this, coverage
      ensures Valid() && coverage == old(coverage)
      ensures Recorded(info, region, tile, old(coverage[DestSample(info, tile)].boxes),
                       coverage[DestSample(info, tile)].boxes)
      ensures FlushDue(info, coverage[DestSample(info, tile)].boxes, tile) ==>
        written == old(written) + [tile] && cache == old(cache) - {tile}
      ensures !FlushDue(info, coverage[DestSample(info, tile)].boxes, tile) ==>
        written == old(written) && cache == old(cache)
      ensures forall i :: 0 <= i < |coverage| && i != DestSample(info, tile) ==>
        coverage[i].boxes == old(coverage[i].boxes)
    {
      var dest := DestSample(info, tile);
      DestIsTileSample(info, tile);
      var rclip := info.TileRegionIn(tile, region);
      var cov := coverage[dest];
      var inserted := cov.Insert(rclip, coalesce);
      Flush(info, tile);
    }

    /** `operator()`: sizes the coverage to the tiles' sample planes and
        writes each listed tile in turn, stopping at the first error. */
    method WriteTiles(info: TileInfo, region: PlaneRegion, tiles: seq<nat>, coalesce: bool)
      returns (r: Outcome, ghost added: seq<nat>)
      requires Valid() && info.Valid()
      modifies this, coverage
      ensures Valid() && |coverage| == info.Planes()
      ensures written == old(written) + added
      ensures forall t :: t in added ==> t in tiles
      ensures forall t :: t in cache ==> t in old(cache) || t in tiles
      ensures r.Pass? ==> forall t :: t in tiles ==> t in cache || t in added
      ensures r.Fail? ==> exists t :: t in tiles && DestSample(info, t) >= info.Planes()
      ensures (forall t :: t in tiles ==> t < info.TileCount()) ==> r.Pass?
    {
      if |coverage| != info.Planes() {
        ResizeCoverage(info.Planes());
      }
      ghost var w0 := written;
      ghost var c0 := cache;
      added := [];
      var i := 0;
      while i < |tiles|
        invariant 0 <= i <= |tiles|
        invariant Valid() && |coverage| == info.Planes()
        invariant forall j :: 0 <= j < |coverage| ==> coverage[j] in old(coverage) || fresh(coverage[j])
        invariant written == w0 + added
        invariant forall t :: t in added ==> t in tiles
        invariant forall t :: t in cache ==> t in c0 || t in tiles
        invariant forall k :: 0 <= k < i ==> tiles[k] in cache || tiles[k] in added
      {
        var tile := tiles[i];
        ghost var wb := written;
        DestIsTileSample(info, tile);
        r := WriteTile(info, region, tile, coalesce);
        if r.Fail? {
          assert tile in tiles;
          return;
        }
        if written != wb {
          added := added + [tile];
        }
        i := i + 1;
      }
      r := Pass;
    }
  }

  function Min(a: nat, b: nat): nat {
    if a < b then a else b
  }
}
