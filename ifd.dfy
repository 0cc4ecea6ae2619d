/** The parts of a TIFF image file directory that do not call libtiff
    (lib/ome/files/tiff/IFD.cpp): the pixel type to SampleFormat and
    BitsPerSample mapping, clamping of bits per sample, the packing of
    1-bit samples, the strip read size check, the write-side tile
    bookkeeping and the buffer checks of `writeImage` and `readImage`.

    The directory's tag values, which the library reads and writes
    through libtiff, are a `Directory` record here: a missing tag is a
    `None` field, and reading it is an error as `getField().get()` is. */
module Ifd {
  import opened Wrappers
  import opened PixelProperties
  import opened PixelBuffer
  import TC = TileCoverage
  import opened Arith

  type PlaneRegion = TC.PlaneRegion

  /** TIFF SampleFormat values (TIFF 6.0, Section 19): 1 unsigned
      integer, 2 signed integer, 3 IEEE floating point, 4 undefined,
      5 complex integer, 6 complex IEEE floating point. */
  datatype SampleFormat = UnsignedInt | SignedInt | IeeeFp | Undefined | ComplexInt | ComplexIeeeFp

  datatype TileType = Tile | Strip

  /** TIFF PlanarConfiguration (TIFF 6.0, Section 8): 1 chunky, 2 planar. */
  datatype PlanarConfiguration = Contig | Separate

  /** TIFF PhotometricInterpretation values used by the writer
      (TIFF 6.0, Section 8): 0, 1, 2 and 3. */
  datatype Photometric = MinIsWhite | MinIsBlack | Rgb | Palette

  // ---------------------------------------------------------------
  // Pixel type mapping.

  /** `setPixelType`: the SampleFormat recorded for a pixel type. */
  function SampleFormatOf(t: PixelType): (f: SampleFormat)
    ensures f == UnsignedInt <==> !IsSigned(t)
    ensures f == SignedInt <==> IsSigned(t) && IsInteger(t)
    ensures f == IeeeFp <==> IsFloatingPoint(t) && !IsComplex(t)
    ensures f == ComplexIeeeFp <==> IsComplex(t)
  {
    match t
    case Bit | UInt8 | UInt16 | UInt32 => UnsignedInt
    case Int8 | Int16 | Int32 => SignedInt
    case Float | Double => IeeeFp
    case ComplexFloat | ComplexDouble => ComplexIeeeFp
  }

  /** The switch of `getPixelType` that decodes SampleFormat and
      BitsPerSample. A combination with no OME pixel type is an error. */
  function DecodePixelType(format: SampleFormat, bits: nat): (r: Result<PixelType>)
    ensures r.Ok? ==> SampleFormatOf(r.value) == format && SignificantBitsPerPixel(r.value) == bits
    ensures (exists t :: SampleFormatOf(t) == format && SignificantBitsPerPixel(t) == bits) ==> r.Ok?
    ensures r.Err? ==> r.error.TiffError?
  {
    match format
    case UnsignedInt =>
      if bits == 1 then Ok(Bit)
      else if bits == 8 then Ok(UInt8)
      else if bits == 16 then Ok(UInt16)
      else if bits == 32 then Ok(UInt32)
      else Err(TiffError("Bit depth unsupported for unsigned integer pixel type"))
    case SignedInt =>
      if bits == 8 then Ok(Int8)
      else if bits == 16 then Ok(Int16)
      else if bits == 32 then Ok(Int32)
      else Err(TiffError("Bit depth unsupported for signed integer pixel type"))
    case IeeeFp =>
      if bits == 32 then Ok(Float)
      else if bits == 64 then Ok(Double)
      else Err(TiffError("Bit depth unsupported for floating point pixel type"))
    case ComplexIeeeFp =>
      if bits == 64 then Ok(ComplexFloat)
      else if bits == 128 then Ok(ComplexDouble)
      else Err(TiffError("Bit depth unsupported for complex floating point pixel type"))
    case _ =>
      Err(TiffError("TIFF SampleFormat unsupported by OME data model PixelType"))
  }

  /** A missing SampleFormat tag reads as unsigned integer. */
  function SampleFormatOrDefault(f: Option<SampleFormat>): (r: SampleFormat)
    ensures f.None? ==> r == UnsignedInt
    ensures f.Some? ==> r == f.value
  {
    if f.Some? then f.value else UnsignedInt
  }

  /** `setBitsPerSample`: a request is cut down to the significant bits
      of the pixel type. */
  function ClampBits(bits: nat, t: PixelType): (r: nat)
    ensures r <= bits && r <= SignificantBitsPerPixel(t)
    ensures r == bits || r == SignificantBitsPerPixel(t)
  {
    var maxBits := SignificantBitsPerPixel(t);
    if bits > maxBits then maxBits else bits
  }

  /** Writing a pixel type and the bits the writer asks for
      (`bitsPerPixel`) and decoding them gives the pixel type back:
      the directory written by `setPixelType` and `setBitsPerSample`
      reads back as the type that was set. */
  lemma {:induction false} PixelTypeRoundTrip(t: PixelType)
    ensures DecodePixelType(SampleFormatOf(t), ClampBits(BitsPerPixel(t), t)) == Ok(t)
  {
    assert ClampBits(BitsPerPixel(t), t) == SignificantBitsPerPixel(t);
    var r := DecodePixelType(SampleFormatOf(t), SignificantBitsPerPixel(t));
    assert r.Ok?;
    assert SampleFormatOf(r.value) == SampleFormatOf(t);
    assert SignificantBitsPerPixel(r.value) == SignificantBitsPerPixel(t);
  }

  /** Decoding is one-to-one: two combinations that decode to the same
      pixel type are the same combination. */
  lemma DecodeInjective(f1: SampleFormat, b1: nat, f2: SampleFormat, b2: nat)
    requires DecodePixelType(f1, b1).Ok? && DecodePixelType(f2, b2).Ok?
    requires DecodePixelType(f1, b1) == DecodePixelType(f2, b2)
    ensures f1 == f2 && b1 == b2
  {
  }

  // ---------------------------------------------------------------
  // Strip and tile read checks.

  /** `expected_read` for typed samples: the whole clip region. */
  function ExpectedRead(t: PixelType, w: nat, h: nat, copysamples: nat): (r: nat)
    requires t != Bit
    ensures r == (w * h * copysamples) * BytesPerPixel(t)
  {
    w * h * copysamples * BytesPerPixel(t)
  }

  /** `expected_read` for BIT, as written: the width is incremented by
      one (not rounded up to a multiple of 8) when it is not a multiple
      of 8, before multiplying and dividing by 8. */
  function ExpectedReadBitAsWritten(w: nat, h: nat, copysamples: nat): (r: nat)
    ensures r * 8 <= (w + 1) * h * copysamples
  {
    var e := if w % 8 != 0 then w + 1 else w;
    (e * (h * copysamples)) / 8
  }

  /** A 9-pixel strip row needs two bytes, but the BIT size check as
      written accepts a read of one. */
  lemma ExpectedReadBitShort()
    ensures ExpectedReadBitAsWritten(9, 1, 1) == 1
    ensures ExpectedReadBitCorrected(9, 1, 1) == 2
  {
  }

  /** `expected_read` for BIT as evidently intended: each row of 1-bit
      samples rounded up to whole bytes. */
  function ExpectedReadBitCorrected(w: nat, h: nat, copysamples: nat): (r: nat)
  {
    ((w + 7) / 8) * h * copysamples
  }

  /** The corrected size holds every bit of every row, and no more than
      one byte of padding per row. */
  lemma ExpectedReadBitCorrectedBounds(w: nat, h: nat, copysamples: nat)
    ensures ExpectedReadBitCorrected(w, h, copysamples) * 8 >= w * h * copysamples
    ensures ExpectedReadBitCorrected(w, h, copysamples) * 8 < (w + 8) * h * copysamples
            || h * copysamples == 0
    ensures w % 8 == 0 ==> ExpectedReadBitCorrected(w, h, copysamples) == ExpectedReadBitAsWritten(w, h, copysamples)
  {
    var hc := h * copysamples;
    var bytes := (w + 7) / 8;
    assert w <= bytes * 8 < w + 8;
    assert ExpectedReadBitCorrected(w, h, copysamples) == bytes * hc by {
      assert bytes * h * copysamples == bytes * (h * copysamples);
    }
    MulLe(w, bytes * 8, hc);
    assert w * h * copysamples == w * hc;
    assert bytes * hc * 8 == (bytes * 8) * hc;
    if hc > 0 {
      MulLt(bytes * 8, w + 8, hc);
      assert (w + 8) * h * copysamples == (w + 8) * hc;
    }
    if w % 8 == 0 {
      assert bytes * 8 == w;
      assert (w * hc) / 8 == bytes * hc;
    }
  }

  /** The size the strip check expects for a clip region. */
  function ExpectedReadFor(t: PixelType, w: nat, h: nat, copysamples: nat): (r: nat)
    ensures t != Bit ==> r == ExpectedRead(t, w, h, copysamples)
    ensures t == Bit ==> r * 8 >= w * h * copysamples
  {
    if t == Bit then
      ExpectedReadBitCorrectedBounds(w, h, copysamples);
      ExpectedReadBitCorrected(w, h, copysamples)
    else ExpectedRead(t, w, h, copysamples)
  }

  /** The checks on the byte count libtiff returns when reading one
      tile or strip (a negative count is a read failure). */
  function ReadCheck(tileType: TileType, bytesRead: int, bufferSize: nat, expected: nat): (r: Outcome)
    ensures r.Pass? <==> (if tileType == Tile then bytesRead == bufferSize else bytesRead >= expected)
    ensures bytesRead < 0 ==> r.Fail?
  {
    if tileType == Tile then
      if bytesRead < 0 then Fail(TiffError("Failed to read encoded tile"))
      else if bytesRead != bufferSize then Fail(TiffError("Failed to read encoded tile fully"))
      else Pass
    else
      if bytesRead < 0 then Fail(TiffError("Failed to read encoded strip"))
      else if bytesRead < expected then Fail(TiffError("Failed to read encoded strip fully"))
      else Pass
  }

  // ---------------------------------------------------------------
  // Buffer checks of writeImage and readImage.

  /** The buffer shape a whole region of this directory needs:
      width, height, one plane, the samples per pixel. */
  function ImageShape(w: nat, h: nat, samples: nat): Extents {
    Extents(w, h, 1, samples)
  }

  /** The storage order of a directory: interleaved unless planar. */
  function ImageOrder(planar: PlanarConfiguration): (o: StorageOrder)
    ensures o == MakeStorageOrder(planar == Contig)
    ensures WellFormed(o)
  {
    MakeStorageOrder(planar != Separate)
  }

  const TypeMismatch := TiffError("VariantPixelBuffer pixel type is incompatible with TIFF sample format and bit depth")
  const PlaneSizeMismatch := TiffError("VariantPixelBuffer dimensions incompatible with TIFF image size")
  const DepthMismatch := TiffError("VariantPixelBuffer dimensions (with depth) incompatible with TIFF image size")
  const OrderMismatch := TiffError("VariantPixelBuffer storage order incompatible with TIFF planar configuration")

  /** The checks `writeImage` makes on its source buffer, in order:
      pixel type, then shape (width, height and samples first, then
      depth), then storage order. */
  function WriteImageCheck(t: PixelType, planar: PlanarConfiguration, samples: nat, w: nat, h: nat,
                           sourceType: PixelType, sourceShape: Extents, sourceOrder: StorageOrder): (r: Outcome)
    ensures r.Pass? <==>
      sourceType == t && sourceShape == ImageShape(w, h, samples) && sourceOrder == ImageOrder(planar)
    ensures sourceType != t ==> r == Fail(TypeMismatch)
    ensures sourceType == t && sourceShape != ImageShape(w, h, samples) ==>
      r == Fail(if sourceShape.x != w || sourceShape.y != h || sourceShape.samples != samples
                then PlaneSizeMismatch else DepthMismatch)
    ensures sourceType == t && sourceShape == ImageShape(w, h, samples) && sourceOrder != ImageOrder(planar) ==>
      r == Fail(OrderMismatch)
  {
    var shape := ImageShape(w, h, samples);
    if t != sourceType then Fail(TypeMismatch)
    else if shape != sourceShape then
      if shape.x != sourceShape.x || shape.y != sourceShape.y || shape.samples != sourceShape.samples
      then Fail(PlaneSizeMismatch)
      else Fail(DepthMismatch)
    else if ImageOrder(planar) != sourceOrder then Fail(OrderMismatch)
    else Pass
  }

  /** `writeImage` with a sample index: always an error. */
  function WriteImageSample(sample: nat): (r: Outcome)
    ensures r.Fail? && r.error.TiffError?
  {
    Fail(TiffError("Writing samples separately is not yet implemented"))
  }

  /** The type, shape and order of a pixel buffer. */
  datatype Layout = Layout(pixelType: PixelType, shape: Extents, order: StorageOrder)

  /** `readImage`: the destination is reallocated (`setBuffer`) exactly
      when its type, shape or order differ from the directory's; the
      result is the layout the destination has afterwards and whether
      it was reallocated. */
  function ReadImageLayout(t: PixelType, planar: PlanarConfiguration, samples: nat, w: nat, h: nat,
                           dest: Layout): (r: (Layout, bool))
    ensures r.0 == Layout(t, ImageShape(w, h, samples), ImageOrder(planar))
    ensures r.1 <==> dest != r.0
    ensures !r.1 ==> r.0 == dest
  {
    var wanted := Layout(t, ImageShape(w, h, samples), ImageOrder(planar));
    if t != dest.pixelType || wanted.shape != dest.shape || wanted.order != dest.order
    then (wanted, true)
    else (dest, false)
  }

  // ---------------------------------------------------------------
  // 1-bit samples, most significant bit first (TIFF 6.0, Section 8,
  // FillOrder 1).

  /** The mask of bit `q` of a bit stream within its byte. */
  function Mask(q: nat): bv8 {
    (1 as bv8) << (7 - q % 8)
  }

  /** Bit `q` of a packed bit stream, read as the unpacking loop reads
      it: byte `q / 8` masked with `Mask(q)`. A bit past the end of the
      stream reads as clear. */
  function BitAt(bytes: seq<bv8>, q: nat): bool {
    q < 8 * |bytes| && bytes[q / 8] & Mask(q) != 0
  }

  /** The bits of a stream, in order. */
  function Bits(bytes: seq<bv8>): (r: seq<bool>)
    ensures |r| == 8 * |bytes|
    ensures forall q: nat :: q < |r| ==> r[q] == BitAt(bytes, q)
  {
    seq(8 * |bytes|, (q: int) requires 0 <= q => BitAt(bytes, q))
  }

  lemma MaskOther(a: bv8, i: nat, j: nat)
    requires i % 8 != j % 8
    ensures (a | Mask(i)) & Mask(j) == a & Mask(j)
  {
  }

  lemma MaskSame(a: bv8, i: nat)
    ensures (a | Mask(i)) & Mask(i) != 0
  {
  }

  /** OR-ing one sample into bit `bit` sets that bit when the sample is
      set and leaves every other bit as it was. */
  lemma SetBitEffect(s: seq<bv8>, bit: nat, b: bool, q: nat)
    requires bit < 8 * |s| && q < 8 * |s|
    ensures BitAt(s[bit / 8 := s[bit / 8] | (if b then Mask(bit) else 0)], q)
            == (BitAt(s, q) || (q == bit && b))
  {
    var t := s[bit / 8 := s[bit / 8] | (if b then Mask(bit) else 0)];
    if q / 8 == bit / 8 && b {
      if q == bit {
        MaskSame(s[bit / 8], bit);
      } else {
        MaskOther(s[bit / 8], bit, q);
      }
    }
  }

  lemma PackStep(before: seq<bv8>, after: seq<bv8>, bit: nat, b: bool)
    requires bit < 8 * |before|
    requires after == before[bit / 8 := before[bit / 8] | (if b then Mask(bit) else 0)]
    ensures |after| == |before|
    ensures forall q: nat :: q < 8 * |before| ==> BitAt(after, q) == (BitAt(before, q) || (q == bit && b))
  {
    forall q: nat | q < 8 * |before|
      ensures BitAt(after, q) == (BitAt(before, q) || (q == bit && b))
    {
      SetBitEffect(before, bit, b, q);
    }
  }

  /** The first `k` samples are OR-ed into `cur` and no other bit of
      `orig` has changed. */
  ghost predicate PackedUpTo(orig: seq<bv8>, cur: seq<bv8>, base: nat, src: seq<bool>, k: nat)
    requires k <= |src|
  {
    && |cur| == |orig|
    && (forall j :: 0 <= j < k ==> BitAt(cur, base + j) == (BitAt(orig, base + j) || src[j]))
    && (forall q: nat :: q < 8 * |orig| && !(base <= q < base + k) ==> BitAt(cur, q) == BitAt(orig, q))
  }

  /** The invariant step of `PackRow` for sample `k`. */
  lemma PackRowStep(orig: seq<bv8>, before: seq<bv8>, after: seq<bv8>, base: nat, src: seq<bool>, k: nat)
    requires k < |src| && base + |src| <= 8 * |orig|
    requires PackedUpTo(orig, before, base, src, k)
    requires after == before[(base + k) / 8 := before[(base + k) / 8] | (if src[k] then Mask(base + k) else 0)]
    ensures PackedUpTo(orig, after, base, src, k + 1)
  {
    PackStep(before, after, base + k, src[k]);
  }

  /** A bit inside a stream of `n` bytes lies in one of its bytes. */
  lemma ByteOfBit(bit: nat, n: nat)
    requires bit < 8 * n
    ensures bit / 8 < n
  {
  }

  /** `dest[bit / 8] |= mask`: ORs one sample into bit `bit`. */
  method OrBit(dest: array<bv8>, bit: nat, b: bool)
    requires bit < 8 * dest.Length
    modifies dest
    ensures dest[..] == old(dest[..])[bit / 8 := old(dest[..])[bit / 8] | (if b then Mask(bit) else 0)]
  {
    ByteOfBit(bit, dest.Length);
    dest[bit / 8] := dest[bit / 8] | (if b then Mask(bit) else 0);
  }

  /** One row of the BIT `transfer` of the write visitor: sample `k` of
      the row is OR-ed into bit `base + k`. The bits are not cleared
      first, since a tile is written once. */
  method PackRow(dest: array<bv8>, base: nat, src: seq<bool>)
    requires base + |src| <= 8 * dest.Length
    modifies dest
    ensures PackedUpTo(old(dest[..]), dest[..], base, src, |src|)
  {
    ghost var orig := dest[..];
    var k := 0;
    while k < |src|
      invariant 0 <= k <= |src|
      invariant PackedUpTo(orig, dest[..], base, src, k)
    {
      ghost var before := dest[..];
      OrBit(dest, base + k, src[k]);
      PackRowStep(orig, before, dest[..], base, src, k);
      k := k + 1;
    }
  }

  /** One row of the BIT `transfer` of the read visitor: element
      `start + k` of the pixel buffer becomes bit `base + k`. */
  method UnpackRow(dest: array<bool>, start: nat, src: seq<bv8>, base: nat, n: nat)
    requires start + n <= dest.Length && base + n <= 8 * |src|
    modifies dest
    ensures forall i :: start <= i < start + n ==> dest[i] == BitAt(src, base + (i - start))
    ensures forall i :: 0 <= i < dest.Length && !(start <= i < start + n) ==> dest[i] == old(dest[i])
  {
    var k := 0;
    while k < n
      invariant 0 <= k <= n
      invariant forall i :: start <= i < start + k ==> dest[i] == BitAt(src, base + (i - start))
      invariant forall i :: 0 <= i < dest.Length && !(start <= i < start + k) ==> dest[i] == old(dest[i])
    {
      var bit := base + k;
      var mask: bv8 := (1 as bv8) << (7 - bit % 8);
      dest[start + k] := src[bit / 8] & mask != 0;
      k := k + 1;
    }
  }

  /** Packing into a zeroed buffer and reading back with the same mask
      returns the samples. */
  lemma {:induction false} ZeroBitsClear(s: seq<bv8>, q: nat)
    requires q < 8 * |s| && forall i :: 0 <= i < |s| ==> s[i] == 0
    ensures !BitAt(s, q)
  {
    assert s[q / 8] == 0;
  }

  /** The geometry of one tile transfer: the visitor's region, the
      tile's full region (`rfull`), the tile clipped to the region
      (`rclip`) and the samples copied per pixel (all of them when
      chunky, one when planar). */
  datatype Transfer = Transfer(region: PlaneRegion, full: PlaneRegion, clip: PlaneRegion, copysamples: nat) {
    /** The clip lies in both the tile and the region. */
    predicate Fits() {
      TC.Contains(full, clip) && TC.Contains(region, clip)
    }

    /** Samples copied per row: `rclip.w * copysamples`. */
    function RowLength(): nat {
      clip.w * copysamples
    }

    /** Samples in a full tile row: `rfull.w * copysamples`. */
    function FullRowLength(): nat {
      full.w * copysamples
    }

    /** `yoffset` of clip row `r`: where tile row `rclip.y + r` starts,
        one full tile row after the previous one. */
    function RowBase(r: nat): nat
      requires Fits()
    {
      if r == 0 then (clip.y - full.y) * FullRowLength()
      else RowBase(r - 1) + FullRowLength()
    }

    /** `xoffset`: where the clip starts within a tile row. */
    function XOffset(): nat
      requires Fits()
    {
      (clip.x - full.x) * copysamples
    }

    /** Where sample `k` of clip row `r` lives in the tile buffer,
        `yoffset + xoffset + k`: a bit index for BIT samples (`dest_bit`,
        `src_bit`), an element index for every other pixel type. */
    function TilePos(r: nat, k: nat): nat
      requires Fits()
    {
      RowBase(r) + XOffset() + k
    }
  }

  /** The row base is the source's `(row - rfull.y) * (rfull.w * copysamples)`. */
  lemma {:induction false} RowBaseClosed(t: Transfer, r: nat)
    requires t.Fits()
    ensures t.RowBase(r) == (t.clip.y - t.full.y + r) * t.FullRowLength()
  {
    if r > 0 {
      RowBaseClosed(t, r - 1);
      var a := t.clip.y - t.full.y + r;
      assert a * t.FullRowLength() == (a - 1) * t.FullRowLength() + t.FullRowLength();
    }
  }

  /** Sample `k` of clip row `r` lies in tile row `r` of the stream. */
  lemma TilePosInRow(t: Transfer, r: nat, k: nat)
    requires t.Fits() && k < t.RowLength()
    ensures t.RowBase(r) <= t.TilePos(r, k) < t.RowBase(r + 1)
  {
    var c := t.copysamples;
    var dx := t.clip.x - t.full.x;
    assert t.XOffset() + k < (dx + t.clip.w) * c by {
      assert (dx + t.clip.w) * c == dx * c + t.clip.w * c;
    }
    MulLe(dx + t.clip.w, t.full.w, c);
  }

  lemma {:induction false} RowBaseMonotone(t: Transfer, r1: nat, r2: nat)
    requires t.Fits() && r1 <= r2
    ensures t.RowBase(r1) <= t.RowBase(r2)
  {
    if r1 < r2 {
      RowBaseMonotone(t, r1, r2 - 1);
    }
  }

  /** The clip's part of a tile row fits in the row. */
  lemma RowFits(t: Transfer)
    requires t.Fits()
    ensures t.XOffset() + t.RowLength() <= t.FullRowLength()
  {
    var c := t.copysamples;
    var dx := t.clip.x - t.full.x;
    assert (dx + t.clip.w) * c == dx * c + t.clip.w * c;
    MulLe(dx + t.clip.w, t.full.w, c);
  }

  /** Row `r` of the clip ends within the tile's bits. */
  lemma RowEndBound(t: Transfer, r: nat)
    requires t.Fits() && r < t.clip.h
    ensures t.TilePos(r, t.RowLength()) <= t.full.h * t.FullRowLength()
  {
    RowFits(t);
    RowBaseMonotone(t, r + 1, t.clip.h);
    RowBaseClosed(t, t.clip.h);
    MulLe(t.clip.y - t.full.y + t.clip.h, t.full.h, t.FullRowLength());
  }

  /** Every bit the transfer touches lies in the tile's
      `rfull.h * rfull.w * copysamples` bits. */
  lemma TilePosBound(t: Transfer, r: nat, k: nat)
    requires t.Fits() && r < t.clip.h && k < t.RowLength()
    ensures t.TilePos(r, k) < t.full.h * t.FullRowLength()
  {
    TilePosInRow(t, r, k);
    RowBaseMonotone(t, r + 1, t.clip.h);
    RowBaseClosed(t, t.clip.h);
    MulLe(t.clip.y - t.full.y + t.clip.h, t.full.h, t.FullRowLength());
  }

  /** Tile bit `q` is one the transfer writes, in one of its first
      `rows` rows. */
  ghost predicate IsTileTarget(t: Transfer, q: nat, rows: nat)
    requires t.Fits()
  {
    exists r: nat, k: nat :: r < rows && k < t.RowLength() && q == t.TilePos(r, k)
  }

  /** No earlier row writes a bit of row `r`. */
  lemma NotEarlierTarget(t: Transfer, r: nat, k: nat)
    requires t.Fits() && k < t.RowLength()
    ensures !IsTileTarget(t, t.TilePos(r, k), r)
  {
    forall r': nat, k': nat | r' < r && k' < t.RowLength()
      ensures t.TilePos(r', k') != t.TilePos(r, k)
    {
      TilePosInRow(t, r', k');
      TilePosInRow(t, r, k);
      RowBaseMonotone(t, r' + 1, r);
    }
  }

  /** The pixel buffer element where clip row `r` starts
      (`&buffer->at(idx)` with idx = (rclip.x - region.x,
      rclip.y - region.y + r, 0, sample)). */
  function RowStart(t: Transfer, order: StorageOrder, shape: Extents, sample: nat, r: nat): nat
    requires t.Fits()
  {
    Offset(order.ordering, shape, Index(t.clip.x - t.region.x, t.clip.y - t.region.y + r, 0, sample))
  }

  /** The pixel buffer element of sample `k` of clip row `r`. */
  function BufferPos(t: Transfer, order: StorageOrder, shape: Extents, sample: nat, r: nat, k: nat): nat
    requires t.Fits()
  {
    RowStart(t, order, shape, sample, r) + k
  }

  /** The rows of the clip lie apart in the pixel buffer. */
  ghost predicate RowsApart(t: Transfer, order: StorageOrder, shape: Extents, sample: nat)
    requires t.Fits()
  {
    forall r1: nat, r2: nat :: r1 < r2 < t.clip.h ==>
      RowStart(t, order, shape, sample, r1) + t.RowLength() <= RowStart(t, order, shape, sample, r2)
  }

  /** The BIT `transfer` of the write visitor: every sample of every
      clip row is OR-ed into its tile bit; no other bit changes. Into a
      zeroed tile buffer, the tile bits become exactly the samples. */
  method PackTile(tile: array<bv8>, data: seq<bool>, t: Transfer, order: StorageOrder, shape: Extents, sample: nat)
    requires t.Fits()
    requires t.full.h * t.FullRowLength() <= 8 * tile.Length
    requires forall r: nat :: r < t.clip.h ==> RowStart(t, order, shape, sample, r) + t.RowLength() <= |data|
    modifies tile
    ensures forall r: nat, k: nat :: r < t.clip.h && k < t.RowLength() ==>
      BitAt(tile[..], t.TilePos(r, k))
        == (BitAt(old(tile[..]), t.TilePos(r, k)) || data[BufferPos(t, order, shape, sample, r, k)])
    ensures forall q: nat :: q < 8 * tile.Length && !IsTileTarget(t, q, t.clip.h) ==>
      BitAt(tile[..], q) == BitAt(old(tile[..]), q)
    ensures (forall i :: 0 <= i < tile.Length ==> old(tile[i]) == 0) ==>
      forall r: nat, k: nat :: r < t.clip.h && k < t.RowLength() ==>
        BitAt(tile[..], t.TilePos(r, k)) == data[BufferPos(t, order, shape, sample, r, k)]
  {
    var xoffset := (t.clip.x - t.full.x) * t.copysamples;
    var row := t.clip.y;
    while row != t.clip.y + t.clip.h
      invariant t.clip.y <= row <= t.clip.y + t.clip.h
      invariant forall r: nat, k: nat :: r < row - t.clip.y && k < t.RowLength() ==>
        BitAt(tile[..], t.TilePos(r, k))
          == (BitAt(old(tile[..]), t.TilePos(r, k)) || data[BufferPos(t, order, shape, sample, r, k)])
      invariant forall q: nat :: q < 8 * tile.Length && !IsTileTarget(t, q, row - t.clip.y) ==>
        BitAt(tile[..], q) == BitAt(old(tile[..]), q)
    {
      var r := row - t.clip.y;
      var yoffset := (row - t.full.y) * (t.full.w * t.copysamples);
      RowBaseClosed(t, r);
      assert yoffset + xoffset == t.TilePos(r, 0);
      var start := RowStart(t, order, shape, sample, r);
      var src := data[start .. start + t.RowLength()];
      RowEndBound(t, r);
      ghost var before := tile[..];
      PackRow(tile, yoffset + xoffset, src);
      PackTileStep(t, order, shape, sample, r, data, old(tile[..]), before, tile[..], yoffset + xoffset, src);
      row := row + 1;
    }
    if forall i :: 0 <= i < tile.Length ==> old(tile[i]) == 0 {
      forall r: nat, k: nat | r < t.clip.h && k < t.RowLength()
        ensures BitAt(tile[..], t.TilePos(r, k)) == data[BufferPos(t, order, shape, sample, r, k)]
      {
        TilePosBound(t, r, k);
        ZeroBitsClear(old(tile[..]), t.TilePos(r, k));
      }
    }
  }

  /** The invariant step of `PackTile` for row `r`, whose bits start
      at `base` and whose samples are `src`. */
  lemma PackTileStep(t: Transfer, order: StorageOrder, shape: Extents, sample: nat, r: nat, data: seq<bool>,
                     orig: seq<bv8>, before: seq<bv8>, after: seq<bv8>, base: nat, src: seq<bool>)
    requires t.Fits() && |orig| == |before| == |after|
    requires r < t.clip.h && base == t.TilePos(r, 0) && |src| == t.RowLength()
    requires forall r': nat :: r' < t.clip.h ==> RowStart(t, order, shape, sample, r') + t.RowLength() <= |data|
    requires src == data[RowStart(t, order, shape, sample, r) .. RowStart(t, order, shape, sample, r) + t.RowLength()]
    requires forall r': nat, k: nat :: r' < r && k < t.RowLength() ==>
      BitAt(before, t.TilePos(r', k)) == (BitAt(orig, t.TilePos(r', k)) || data[BufferPos(t, order, shape, sample, r', k)])
    requires forall q: nat :: q < 8 * |orig| && !IsTileTarget(t, q, r) ==> BitAt(before, q) == BitAt(orig, q)
    requires base + |src| <= 8 * |orig|
    requires forall k :: 0 <= k < |src| ==> BitAt(after, base + k) == (BitAt(before, base + k) || src[k])
    requires forall q: nat :: q < 8 * |orig| && !(base <= q < base + |src|) ==> BitAt(after, q) == BitAt(before, q)
    ensures forall r': nat, k: nat :: r' < r + 1 && k < t.RowLength() ==>
      BitAt(after, t.TilePos(r', k)) == (BitAt(orig, t.TilePos(r', k)) || data[BufferPos(t, order, shape, sample, r', k)])
    ensures forall q: nat :: q < 8 * |orig| && !IsTileTarget(t, q, r + 1) ==> BitAt(after, q) == BitAt(orig, q)
  {
    var n := t.RowLength();
    forall r': nat, k: nat | r' < r + 1 && k < n
      ensures BitAt(after, t.TilePos(r', k)) == (BitAt(orig, t.TilePos(r', k)) || data[BufferPos(t, order, shape, sample, r', k)])
    {
      if r' < r {
        TilePosInRow(t, r', k);
        TilePosInRow(t, r, 0);
        RowBaseMonotone(t, r' + 1, r);
        assert t.TilePos(r', k) < base;
      } else {
        assert t.TilePos(r, k) == base + k;
        NotEarlierTarget(t, r, k);
        assert src[k] == data[BufferPos(t, order, shape, sample, r, k)];
      }
    }
    forall q: nat | q < 8 * |orig| && !IsTileTarget(t, q, r + 1)
      ensures BitAt(after, q) == BitAt(orig, q)
    {
      InRowIsTileTarget(t, r, q);
      assert !IsTileTarget(t, q, r);
    }
  }

  /** Every bit of row `r` is a target of the first `r + 1` rows. */
  lemma InRowIsTileTarget(t: Transfer, r: nat, q: nat)
    requires t.Fits()
    ensures t.TilePos(r, 0) <= q < t.TilePos(r, 0) + t.RowLength() ==> IsTileTarget(t, q, r + 1)
  {
    if t.TilePos(r, 0) <= q < t.TilePos(r, 0) + t.RowLength() {
      assert q == t.TilePos(r, q - t.TilePos(r, 0));
    }
  }

  /** Element `i` of the pixel buffer is one the transfer writes, in
      one of the clip's first `rows` rows. */
  ghost predicate IsBufferTarget(t: Transfer, order: StorageOrder, shape: Extents, sample: nat, i: nat, rows: nat)
    requires t.Fits()
  {
    exists r: nat, k: nat :: r < rows && k < t.RowLength() && i == BufferPos(t, order, shape, sample, r, k)
  }

  /** The BIT `transfer` of the read visitor: every sample of every
      clip row of the pixel buffer is set from its tile bit; no other
      element changes. */
  method UnpackTile(dest: array<bool>, tile: seq<bv8>, t: Transfer, order: StorageOrder, shape: Extents, sample: nat)
    requires t.Fits()
    requires t.full.h * t.FullRowLength() <= 8 * |tile|
    requires forall r: nat :: r < t.clip.h ==> RowStart(t, order, shape, sample, r) + t.RowLength() <= dest.Length
    requires RowsApart(t, order, shape, sample)
    modifies dest
    ensures forall r: nat, k: nat :: r < t.clip.h && k < t.RowLength() ==>
      dest[BufferPos(t, order, shape, sample, r, k)] == BitAt(tile, t.TilePos(r, k))
    ensures forall i :: 0 <= i < dest.Length && !IsBufferTarget(t, order, shape, sample, i, t.clip.h) ==>
      dest[i] == old(dest[i])
  {
    ghost var bits := Bits(tile);
    forall r: nat, k: nat | r < t.clip.h && k < t.RowLength()
      ensures t.TilePos(r, k) < |bits|
    {
      TilePosBound(t, r, k);
    }
    var xoffset := (t.clip.x - t.full.x) * t.copysamples;
    var row := t.clip.y;
    while row != t.clip.y + t.clip.h
      invariant t.clip.y <= row <= t.clip.y + t.clip.h
      invariant forall r: nat, k: nat :: r < row - t.clip.y && k < t.RowLength() ==>
        dest[BufferPos(t, order, shape, sample, r, k)] == bits[t.TilePos(r, k)]
      invariant forall i :: 0 <= i < dest.Length && !IsBufferTarget(t, order, shape, sample, i, row - t.clip.y) ==>
        dest[i] == old(dest[i])
    {
      UnpackTileRow(dest, tile, bits, old(dest[..]), t, order, shape, sample, row, xoffset);
      row := row + 1;
    }
  }

  /** Packing the clip's samples into a zeroed tile and unpacking that
      tile again gives back every sample of the clip. */
  method PackUnpack(data: seq<bool>, t: Transfer, order: StorageOrder, shape: Extents, sample: nat)
    returns (back: array<bool>)
    requires t.Fits()
    requires forall r: nat :: r < t.clip.h ==> RowStart(t, order, shape, sample, r) + t.RowLength() <= |data|
    requires RowsApart(t, order, shape, sample)
    ensures back.Length == |data|
    ensures forall r: nat, k: nat :: r < t.clip.h && k < t.RowLength() ==>
      back[BufferPos(t, order, shape, sample, r, k)] == data[BufferPos(t, order, shape, sample, r, k)]
  {
    var bits: nat := t.full.h * t.FullRowLength();
    var size: nat := (bits + 7) / 8;
    assert bits <= 8 * size;
    var tile := new bv8[size](_ => 0);
    PackTile(tile, data, t, order, shape, sample);
    back := new bool[|data|](_ => false);
    UnpackTile(back, tile[..], t, order, shape, sample);
  }

  /** One iteration of the row loop of `UnpackTile`: clip row `row`. */
  method UnpackTileRow(dest: array<bool>, tile: seq<bv8>, ghost bits: seq<bool>, ghost orig: seq<bool>,
                     t: Transfer, order: StorageOrder, shape: Extents, sample: nat, row: nat, xoffset: nat)
    requires t.Fits() && bits == Bits(tile)
    requires t.clip.y <= row < t.clip.y + t.clip.h && xoffset == (t.clip.x - t.full.x) * t.copysamples
    requires t.full.h * t.FullRowLength() <= 8 * |tile|
    requires forall r: nat :: r < t.clip.h ==> RowStart(t, order, shape, sample, r) + t.RowLength() <= dest.Length
    requires forall r: nat, k: nat :: r < t.clip.h && k < t.RowLength() ==> t.TilePos(r, k) < |bits|
    requires RowsApart(t, order, shape, sample)
    requires forall r: nat, k: nat :: r < row - t.clip.y && k < t.RowLength() ==>
      dest[BufferPos(t, order, shape, sample, r, k)] == bits[t.TilePos(r, k)]
    requires |orig| == dest.Length
    requires forall i :: 0 <= i < dest.Length && !IsBufferTarget(t, order, shape, sample, i, row - t.clip.y) ==>
      dest[i] == orig[i]
    modifies dest
    ensures forall r: nat, k: nat :: r < row + 1 - t.clip.y && k < t.RowLength() ==>
      dest[BufferPos(t, order, shape, sample, r, k)] == bits[t.TilePos(r, k)]
    ensures forall i :: 0 <= i < dest.Length && !IsBufferTarget(t, order, shape, sample, i, row + 1 - t.clip.y) ==>
      dest[i] == orig[i]
  {
    var r := row - t.clip.y;
    var yoffset := (row - t.full.y) * (t.full.w * t.copysamples);
    RowBaseClosed(t, r);
    assert yoffset + xoffset == t.TilePos(r, 0);
    var start := RowStart(t, order, shape, sample, r);
    RowEndBound(t, r);
    ghost var before := dest[..];
    UnpackRow(dest, start, tile, yoffset + xoffset, t.RowLength());
    UnpackRowStep(t, order, shape, sample, r, tile, bits, orig, before, dest[..]);
  }

  /** Position `i` lies in the `n` positions from `start`. */
  predicate InRow(start: nat, n: nat, i: int) {
    start <= i < start + n
  }

  /** The invariant step of `UnpackTile` for clip row `r`, from what
      `UnpackRow` leaves. */
  lemma UnpackRowStep(t: Transfer, order: StorageOrder, shape: Extents, sample: nat, r: nat, tile: seq<bv8>,
                      bits: seq<bool>, orig: seq<bool>, before: seq<bool>, after: seq<bool>)
    requires t.Fits() && bits == Bits(tile) && |orig| == |before| == |after| && r < t.clip.h
    requires forall r': nat :: r' < t.clip.h ==> RowStart(t, order, shape, sample, r') + t.RowLength() <= |orig|
    requires forall r': nat, k: nat :: r' < t.clip.h && k < t.RowLength() ==> t.TilePos(r', k) < |bits|
    requires t.TilePos(r, 0) + t.RowLength() <= |bits|
    requires RowsApart(t, order, shape, sample)
    requires forall r': nat, k: nat :: r' < r && k < t.RowLength() ==>
      before[BufferPos(t, order, shape, sample, r', k)] == bits[t.TilePos(r', k)]
    requires forall i :: 0 <= i < |orig| && !IsBufferTarget(t, order, shape, sample, i, r) ==> before[i] == orig[i]
    requires forall i :: RowStart(t, order, shape, sample, r) <= i < RowStart(t, order, shape, sample, r) + t.RowLength() ==>
      after[i] == BitAt(tile, t.TilePos(r, 0) + (i - RowStart(t, order, shape, sample, r)))
    requires forall i :: 0 <= i < |after| && !InRow(RowStart(t, order, shape, sample, r), t.RowLength(), i) ==>
      after[i] == before[i]
    ensures forall r': nat, k: nat :: r' < r + 1 && k < t.RowLength() ==>
      after[BufferPos(t, order, shape, sample, r', k)] == bits[t.TilePos(r', k)]
    ensures forall i :: 0 <= i < |orig| && !IsBufferTarget(t, order, shape, sample, i, r + 1) ==> after[i] == orig[i]
  {
    var start := RowStart(t, order, shape, sample, r);
    var base := t.TilePos(r, 0);
    var src := bits[base .. base + t.RowLength()];
    UnpackedRow(after, tile, bits, start, base, src);
    ReadRowStep(t, order, shape, sample, r, bits, orig, before, after, start, base, src);
  }

  /** What `UnpackRow` leaves, seen as a copy of a slice of the bits. */
  lemma UnpackedRow(after: seq<bool>, tile: seq<bv8>, bits: seq<bool>, start: nat, base: nat, src: seq<bool>)
    requires bits == Bits(tile) && base + |src| <= |bits| && src == bits[base .. base + |src|]
    requires start + |src| <= |after|
    requires forall i :: start <= i < start + |src| ==> after[i] == BitAt(tile, base + (i - start))
    ensures forall j :: 0 <= j < |src| ==> after[start + j] == src[j]
  {
    forall j | 0 <= j < |src|
      ensures after[start + j] == src[j]
    {
      assert after[start + j] == BitAt(tile, base + j);
    }
  }

  /** The invariant step of the row loops that read a tile: row `r`,
      whose elements start at `start`, has been copied from `vals` (the
      tile's elements, or its bits for BIT) from position `base` on. */
  lemma ReadRowStep<T>(t: Transfer, order: StorageOrder, shape: Extents, sample: nat, r: nat, vals: seq<T>,
                       orig: seq<T>, before: seq<T>, after: seq<T>, start: nat, base: nat, src: seq<T>)
    requires t.Fits() && |orig| == |before| == |after|
    requires r < t.clip.h && base == t.TilePos(r, 0) && start == RowStart(t, order, shape, sample, r)
    requires forall r': nat :: r' < t.clip.h ==> RowStart(t, order, shape, sample, r') + t.RowLength() <= |orig|
    requires forall r': nat, k: nat :: r' < t.clip.h && k < t.RowLength() ==> t.TilePos(r', k) < |vals|
    requires RowsApart(t, order, shape, sample)
    requires forall r': nat, k: nat :: r' < r && k < t.RowLength() ==>
      before[BufferPos(t, order, shape, sample, r', k)] == vals[t.TilePos(r', k)]
    requires forall i :: 0 <= i < |orig| && !IsBufferTarget(t, order, shape, sample, i, r) ==> before[i] == orig[i]
    requires base + t.RowLength() <= |vals| && src == vals[base .. base + t.RowLength()]
    requires forall j :: 0 <= j < |src| ==> after[start + j] == src[j]
    requires forall i :: 0 <= i < |orig| && !(start <= i < start + t.RowLength()) ==> after[i] == before[i]
    ensures forall r': nat, k: nat :: r' < r + 1 && k < t.RowLength() ==>
      after[BufferPos(t, order, shape, sample, r', k)] == vals[t.TilePos(r', k)]
    ensures forall i :: 0 <= i < |orig| && !IsBufferTarget(t, order, shape, sample, i, r + 1) ==> after[i] == orig[i]
  {
    var n := t.RowLength();
    forall r': nat, k: nat | r' < r + 1 && k < n
      ensures after[BufferPos(t, order, shape, sample, r', k)] == vals[t.TilePos(r', k)]
    {
      if r' < r {
        assert RowStart(t, order, shape, sample, r') + n <= start;
      } else {
        assert BufferPos(t, order, shape, sample, r, k) == start + k;
        assert src[k] == vals[t.TilePos(r, k)];
      }
    }
    forall i | 0 <= i < |orig| && !IsBufferTarget(t, order, shape, sample, i, r + 1)
      ensures after[i] == orig[i]
    {
      InRowIsBufferTarget(t, order, shape, sample, r, i);
      assert !IsBufferTarget(t, order, shape, sample, i, r) by {
        forall r': nat, k: nat | r' < r && k < n
          ensures i != BufferPos(t, order, shape, sample, r', k)
        {
        }
      }
    }
  }

  /** Every element of row `r` is a target of the first `r + 1` rows. */
  lemma InRowIsBufferTarget(t: Transfer, order: StorageOrder, shape: Extents, sample: nat, r: nat, i: nat)
    requires t.Fits()
    ensures RowStart(t, order, shape, sample, r) <= i < RowStart(t, order, shape, sample, r) + t.RowLength() ==>
      IsBufferTarget(t, order, shape, sample, i, r + 1)
  {
    var start := RowStart(t, order, shape, sample, r);
    if start <= i < start + t.RowLength() {
      assert i == BufferPos(t, order, shape, sample, r, i - start);
    }
  }

  /** Distinct samples of the clip go to distinct tile bits. */
  lemma TilePosInjective(t: Transfer, r1: nat, k1: nat, r2: nat, k2: nat)
    requires t.Fits() && k1 < t.RowLength() && k2 < t.RowLength()
    requires t.TilePos(r1, k1) == t.TilePos(r2, k2)
    ensures r1 == r2 && k1 == k2
  {
    TilePosInRow(t, r1, k1);
    TilePosInRow(t, r2, k2);
    if r1 < r2 {
      RowBaseMonotone(t, r1 + 1, r2);
    } else if r2 < r1 {
      RowBaseMonotone(t, r2 + 1, r1);
    }
  }

  /** The transfer as the visitors set it up for an image buffer of the
      region's size: all samples of a pixel when chunky (with sample
      index 0), one sample plane when planar. */
  predicate ImageTransfer(t: Transfer, planar: PlanarConfiguration, samples: nat, sample: nat) {
    && t.Fits()
    && (planar == Contig ==> t.copysamples == samples && sample == 0)
    && (planar == Separate ==> t.copysamples == 1 && sample < samples)
  }

  /** Elements between the starts of two successive rows of an image
      buffer of width `w`. */
  function Pitch(planar: PlanarConfiguration, samples: nat, w: nat): nat {
    if planar == Contig then samples * w else w
  }

  /** Where an element of an image buffer lives, for either layout. */
  lemma ImageOffset(planar: PlanarConfiguration, e: Extents, idx: Index)
    requires e.z == 1 && idx.z == 0
    ensures planar == Contig ==>
      Offset(ImageOrder(planar).ordering, e, idx) == idx.sample + e.samples * (idx.x + e.x * idx.y)
    ensures planar == Separate ==>
      Offset(ImageOrder(planar).ordering, e, idx) == idx.x + e.x * (idx.y + e.y * idx.sample)
  {
    if planar == Contig {
      assert ImageOrder(planar).ordering == [Sample, SpatialX, SpatialY, SpatialZ];
      OffsetContig(e, idx);
    } else {
      assert ImageOrder(planar).ordering == [SpatialX, SpatialY, SpatialZ, Sample];
      OffsetSeparate(e, idx);
    }
  }

  lemma OffsetContig(e: Extents, idx: Index)
    requires e.z == 1 && idx.z == 0
    ensures Offset([Sample, SpatialX, SpatialY, SpatialZ], e, idx) == idx.sample + e.samples * (idx.x + e.x * idx.y)
  {
    var o := [Sample, SpatialX, SpatialY, SpatialZ];
    assert o[1..] == [SpatialX, SpatialY, SpatialZ];
    assert o[1..][1..] == [SpatialY, SpatialZ];
    assert o[1..][1..][1..] == [SpatialZ];
    assert o[1..][1..][1..][1..] == [];
    assert Offset(o[1..][1..][1..], e, idx) == 0;
    assert Offset(o[1..][1..], e, idx) == idx.y;
  }

  lemma OffsetSeparate(e: Extents, idx: Index)
    requires e.z == 1 && idx.z == 0
    ensures Offset([SpatialX, SpatialY, SpatialZ, Sample], e, idx) == idx.x + e.x * (idx.y + e.y * idx.sample)
  {
    var o := [SpatialX, SpatialY, SpatialZ, Sample];
    assert o[1..] == [SpatialY, SpatialZ, Sample];
    assert o[1..][1..] == [SpatialZ, Sample];
    assert o[1..][1..][1..] == [Sample];
    assert o[1..][1..][1..][1..] == [];
    assert Offset(o[1..][1..][1..], e, idx) == idx.sample;
    assert Offset(o[1..][1..], e, idx) == idx.sample;
  }

  /** The clip's rows are one pitch apart in an image buffer: row `r`
      starts `r` pitches after row 0. */
  lemma ImageRowStartLinear(t: Transfer, planar: PlanarConfiguration, samples: nat, sample: nat, r: nat)
    requires ImageTransfer(t, planar, samples, sample)
    ensures RowStart(t, ImageOrder(planar), ImageShape(t.region.w, t.region.h, samples), sample, r)
         == RowStart(t, ImageOrder(planar), ImageShape(t.region.w, t.region.h, samples), sample, 0)
            + r * Pitch(planar, samples, t.region.w)
  {
    var e := ImageShape(t.region.w, t.region.h, samples);
    var x := t.clip.x - t.region.x;
    var y := t.clip.y - t.region.y;
    ImageOffset(planar, e, Index(x, y, 0, sample));
    ImageOffset(planar, e, Index(x, y + r, 0, sample));
    if planar == Contig {
      ContigRows(samples, x, e.x, y, r);
    } else {
      SeparateRows(x, e.x, y, e.y, sample, r);
    }
  }

  lemma ContigRows(s: nat, x: nat, w: nat, y: nat, r: nat)
    ensures s * (x + w * (y + r)) == s * (x + w * y) + r * (s * w)
  {
    assert w * (y + r) == w * y + w * r;
    assert s * (x + w * y + w * r) == s * (x + w * y) + s * (w * r);
  }

  lemma SeparateRows(x: nat, w: nat, y: nat, h: nat, sample: nat, r: nat)
    ensures x + w * ((y + r) + h * sample) == x + w * (y + h * sample) + r * w
  {
    assert w * ((y + h * sample) + r) == w * (y + h * sample) + w * r;
  }

  /** Successive rows of the clip are one pitch apart in an image
      buffer. */
  lemma ImageRowStart(t: Transfer, planar: PlanarConfiguration, samples: nat, sample: nat, r: nat)
    requires ImageTransfer(t, planar, samples, sample)
    ensures RowStart(t, ImageOrder(planar), ImageShape(t.region.w, t.region.h, samples), sample, r + 1)
         == RowStart(t, ImageOrder(planar), ImageShape(t.region.w, t.region.h, samples), sample, r)
            + Pitch(planar, samples, t.region.w)
  {
    ImageRowStartLinear(t, planar, samples, sample, r);
    ImageRowStartLinear(t, planar, samples, sample, r + 1);
    assert (r + 1) * Pitch(planar, samples, t.region.w) == r * Pitch(planar, samples, t.region.w) + Pitch(planar, samples, t.region.w);
  }

  /** A clip row fits in one pitch of an image buffer. */
  lemma ImageRowFits(t: Transfer, planar: PlanarConfiguration, samples: nat, sample: nat)
    requires ImageTransfer(t, planar, samples, sample)
    ensures t.RowLength() <= Pitch(planar, samples, t.region.w)
  {
    if planar == Contig {
      MulLe(t.clip.w, t.region.w, samples);
    }
  }

  lemma {:induction false} ImageRowStartMonotone(t: Transfer, planar: PlanarConfiguration, samples: nat, sample: nat,
                                                  r1: nat, r2: nat)
    requires ImageTransfer(t, planar, samples, sample) && r1 < r2
    ensures RowStart(t, ImageOrder(planar), ImageShape(t.region.w, t.region.h, samples), sample, r1)
            + Pitch(planar, samples, t.region.w)
         <= RowStart(t, ImageOrder(planar), ImageShape(t.region.w, t.region.h, samples), sample, r2)
  {
    ImageRowStart(t, planar, samples, sample, r2 - 1);
    if r1 < r2 - 1 {
      ImageRowStartMonotone(t, planar, samples, sample, r1, r2 - 1);
    }
  }

  /** In an image buffer of the region's size the clip's rows lie
      apart, and every one of them lies inside the buffer. */
  lemma ImageRowsApart(t: Transfer, planar: PlanarConfiguration, samples: nat, sample: nat)
    requires ImageTransfer(t, planar, samples, sample)
    ensures RowsApart(t, ImageOrder(planar), ImageShape(t.region.w, t.region.h, samples), sample)
    ensures forall r: nat :: r < t.clip.h ==>
      RowStart(t, ImageOrder(planar), ImageShape(t.region.w, t.region.h, samples), sample, r) + t.RowLength()
        <= t.region.w * t.region.h * samples
  {
    var order := ImageOrder(planar);
    var e := ImageShape(t.region.w, t.region.h, samples);
    ImageRowFits(t, planar, samples, sample);
    forall r1: nat, r2: nat | r1 < r2 < t.clip.h
      ensures RowStart(t, order, e, sample, r1) + t.RowLength() <= RowStart(t, order, e, sample, r2)
    {
      ImageRowStartMonotone(t, planar, samples, sample, r1, r2);
    }
    forall r: nat | r < t.clip.h
      ensures RowStart(t, order, e, sample, r) + t.RowLength() <= t.region.w * t.region.h * samples
    {
      ImageRowEnd(t, planar, samples, sample, r);
    }
  }

  /** Row `r` of the clip ends inside an image buffer of the region's
      size. */
  lemma ImageRowEnd(t: Transfer, planar: PlanarConfiguration, samples: nat, sample: nat, r: nat)
    requires ImageTransfer(t, planar, samples, sample) && r < t.clip.h
    ensures RowStart(t, ImageOrder(planar), ImageShape(t.region.w, t.region.h, samples), sample, r) + t.RowLength()
         <= t.region.w * t.region.h * samples
  {
    var e := ImageShape(t.region.w, t.region.h, samples);
    var x := t.clip.x - t.region.x;
    var y := t.clip.y - t.region.y + r;
    var w := t.region.w;
    var h := t.region.h;
    ImageOffset(planar, e, Index(x, y, 0, sample));
    assert x + t.clip.w <= w && y < h;
    if planar == Contig {
      RowEndContig(x, t.clip.w, y, w, h, samples);
    } else {
      RowEndSeparate(x, t.clip.w, y, w, h, sample, samples);
    }
  }

  lemma RowEndContig(x: nat, cw: nat, y: nat, w: nat, h: nat, s: nat)
    requires x + cw <= w && y < h
    ensures s * (x + w * y) + cw * s <= w * h * s
  {
    assert s * (x + w * y) + cw * s == (x + cw + w * y) * s;
    assert x + cw + w * y <= w * (y + 1);
    MulLe(y + 1, h, w);
    assert w * (y + 1) <= w * h;
    MulLe(x + cw + w * y, w * h, s);
  }

  lemma RowEndSeparate(x: nat, cw: nat, y: nat, w: nat, h: nat, sample: nat, s: nat)
    requires x + cw <= w && y < h && sample < s
    ensures x + w * (y + h * sample) + cw <= w * h * s
  {
    assert y + 1 + h * sample <= h * (sample + 1);
    MulLe(sample + 1, s, h);
    assert y + 1 + h * sample <= h * s;
    assert x + w * (y + h * sample) + cw <= (y + 1 + h * sample) * w;
    MulLe(y + 1 + h * sample, h * s, w);
    assert h * s * w == w * h * s;
  }

  // ---------------------------------------------------------------
  // The `transfer` of every pixel type but BIT: elements are copied
  // row by row, or as one block when the clip spans the whole width
  // of both the tile and the region.

  /** The condition under which both visitors copy one contiguous block. */
  predicate FastPath(t: Transfer) {
    t.clip.w == t.full.w && t.clip.x == t.region.x && t.clip.w == t.region.w
  }

  /** The tile element the block copy uses for sample `k` of clip row
      `r`, as written: the block starts at the start of the tile buffer. */
  function FastPathPosAsWritten(t: Transfer, r: nat, k: nat): nat {
    r * t.RowLength() + k
  }

  /** The tile element the block copy uses for sample `k` of clip row
      `r` once it starts where the clip starts in the tile. */
  function FastPathPos(t: Transfer, r: nat, k: nat): nat
    requires t.Fits()
  {
    t.TilePos(0, 0) + r * t.RowLength() + k
  }

  /** Strip 0 of a 64-pixel-wide image with 8 rows per strip, read or
      written for the region starting at row 4: the clip starts at row
      4 of the strip, but the block copy takes the strip's row 0. */
  lemma FastPathSkipsRowOffset()
    ensures var t := Transfer(TC.PlaneRegion(0, 4, 64, 8), TC.PlaneRegion(0, 0, 64, 8), TC.PlaneRegion(0, 4, 64, 4), 1);
      && t.Fits() && FastPath(t)
      && t.clip == TC.Intersect(t.full, t.region)
      && FastPathPosAsWritten(t, 0, 0) == 0
      && t.TilePos(0, 0) == 256
  {
    var t := Transfer(TC.PlaneRegion(0, 4, 64, 8), TC.PlaneRegion(0, 0, 64, 8), TC.PlaneRegion(0, 4, 64, 4), 1);
    assert t.RowBase(0) == 4 * 64;
  }

  lemma {:induction false} RowBaseLinear(t: Transfer, r: nat)
    requires t.Fits()
    ensures t.RowBase(r) == t.RowBase(0) + r * t.FullRowLength()
  {
    if r > 0 {
      RowBaseLinear(t, r - 1);
    }
  }

  /** On the fast path the corrected block copy takes every sample from
      the tile element the row-by-row copy takes it from. */
  lemma FastPathAgrees(t: Transfer, r: nat, k: nat)
    requires t.Fits() && FastPath(t)
    ensures FastPathPos(t, r, k) == t.TilePos(r, k)
  {
    RowBaseLinear(t, r);
    assert t.XOffset() == 0;
  }

  /** The clip's rows follow one another without a gap in the buffer. */
  ghost predicate RowsContiguous(t: Transfer, order: StorageOrder, shape: Extents, sample: nat)
    requires t.Fits()
  {
    forall r: nat :: r < t.clip.h ==>
      RowStart(t, order, shape, sample, r) == RowStart(t, order, shape, sample, 0) + r * t.RowLength()
  }

  /** On the fast path the clip's rows are contiguous in an image buffer
      of the region's size. */
  lemma FastPathContiguous(t: Transfer, planar: PlanarConfiguration, samples: nat, sample: nat)
    requires ImageTransfer(t, planar, samples, sample) && FastPath(t)
    ensures RowsContiguous(t, ImageOrder(planar), ImageShape(t.region.w, t.region.h, samples), sample)
  {
    assert Pitch(planar, samples, t.region.w) == t.RowLength();
    forall r: nat | r < t.clip.h
      ensures RowStart(t, ImageOrder(planar), ImageShape(t.region.w, t.region.h, samples), sample, r)
           == RowStart(t, ImageOrder(planar), ImageShape(t.region.w, t.region.h, samples), sample, 0) + r * t.RowLength()
    {
      ImageRowStartLinear(t, planar, samples, sample, r);
    }
  }

  /** `std::copy` of `src` to `dest` from element `start` on. */
  method CopyInto<T>(dest: array<T>, start: nat, src: seq<T>)
    requires start + |src| <= dest.Length
    modifies dest
    ensures forall j :: 0 <= j < |src| ==> dest[start + j] == src[j]
    ensures forall i :: 0 <= i < dest.Length && !(start <= i < start + |src|) ==> dest[i] == old(dest[i])
  {
    var k := 0;
    while k < |src|
      invariant 0 <= k <= |src|
      invariant forall j :: 0 <= j < k ==> dest[start + j] == src[j]
      invariant forall i :: 0 <= i < dest.Length && !(start <= i < start + k) ==> dest[i] == old(dest[i])
    {
      dest[start + k] := src[k];
      k := k + 1;
    }
  }

  lemma BlockIndex(r: nat, k: nat, n: nat, h: nat)
    requires r < h && k < n
    ensures r * n + k < h * n
  {
    MulLe(r + 1, h, n);
  }

  /** Element `j` of a block of `h` rows of `n` elements is element
      `j % n` of row `j / n`. */
  lemma DivideBlock(j: nat, n: nat, h: nat)
    requires j < n * h
    ensures n > 0 && j / n < h && j % n < n && j == (j / n) * n + j % n
  {
    if j / n >= h {
      MulLe(h, j / n, n);
    }
  }

  /** On the fast path sample `k` of clip row `r` is element
      `r * n + k` of the block, in the tile and in the buffer alike. */
  lemma BlockPositions(t: Transfer, order: StorageOrder, shape: Extents, sample: nat, r: nat, k: nat)
    requires t.Fits() && FastPath(t) && RowsContiguous(t, order, shape, sample)
    requires r < t.clip.h && k < t.RowLength()
    ensures r * t.RowLength() + k < t.RowLength() * t.clip.h
    ensures t.TilePos(r, k) == FastPathPos(t, 0, 0) + (r * t.RowLength() + k)
    ensures BufferPos(t, order, shape, sample, r, k) == RowStart(t, order, shape, sample, 0) + (r * t.RowLength() + k)
  {
    FastPathAgrees(t, r, k);
    BlockIndex(r, k, t.RowLength(), t.clip.h);
  }

  /** Every element of a contiguous block of clip rows is a target of
      the clip. */
  lemma InBlockIsBufferTarget(t: Transfer, order: StorageOrder, shape: Extents, sample: nat, i: nat)
    requires t.Fits() && RowsContiguous(t, order, shape, sample)
    ensures var start := RowStart(t, order, shape, sample, 0);
      start <= i < start + t.RowLength() * t.clip.h ==> IsBufferTarget(t, order, shape, sample, i, t.clip.h)
  {
    var start := RowStart(t, order, shape, sample, 0);
    var n := t.RowLength();
    if start <= i < start + n * t.clip.h {
      var j := i - start;
      DivideBlock(j, n, t.clip.h);
      var r := j / n;
      var k := j % n;
      assert i == BufferPos(t, order, shape, sample, r, k);
    }
  }

  /** Every element of the fast-path block of a tile is a target of the
      clip. */
  lemma InBlockIsTileTarget(t: Transfer, q: nat)
    requires t.Fits() && FastPath(t)
    ensures FastPathPos(t, 0, 0) <= q < FastPathPos(t, 0, 0) + t.RowLength() * t.clip.h ==>
      IsTileTarget(t, q, t.clip.h)
  {
    var from := FastPathPos(t, 0, 0);
    var n := t.RowLength();
    if from <= q < from + n * t.clip.h {
      var j := q - from;
      DivideBlock(j, n, t.clip.h);
      var r := j / n;
      var k := j % n;
      FastPathAgrees(t, r, k);
      assert q == t.TilePos(r, k);
    }
  }

  /** The `transfer` of the read visitor for every pixel type but BIT:
      every sample of the clip is copied from its tile element into the
      image buffer; no other element changes. */
  method ReadTransfer<T>(dest: array<T>, tile: seq<T>, t: Transfer, planar: PlanarConfiguration, samples: nat, sample: nat,
                         order: StorageOrder, shape: Extents)
    requires ImageTransfer(t, planar, samples, sample)
    requires order == ImageOrder(planar) && shape == ImageShape(t.region.w, t.region.h, samples)
    requires forall r: nat, k: nat :: r < t.clip.h && k < t.RowLength() ==> t.TilePos(r, k) < |tile|
    requires forall r: nat :: r < t.clip.h ==> RowStart(t, order, shape, sample, r) + t.RowLength() <= dest.Length
    modifies dest
    ensures forall r: nat, k: nat :: r < t.clip.h && k < t.RowLength() ==>
      dest[BufferPos(t, order, shape, sample, r, k)] == tile[t.TilePos(r, k)]
    ensures forall i :: 0 <= i < dest.Length && !IsBufferTarget(t, order, shape, sample, i, t.clip.h) ==>
      dest[i] == old(dest[i])
  {
    if FastPath(t) {
      FastPathContiguous(t, planar, samples, sample);
      ReadBlock(dest, tile, t, order, shape, sample);
    } else {
      ImageRowsApart(t, planar, samples, sample);
      ReadRows(dest, tile, t, order, shape, sample);
    }
  }

  /** The contiguous branch of the read visitor's `transfer`, copying
      from where the clip starts in the tile. */
  method ReadBlock<T>(dest: array<T>, tile: seq<T>, t: Transfer, order: StorageOrder, shape: Extents, sample: nat)
    requires t.Fits() && FastPath(t) && RowsContiguous(t, order, shape, sample)
    requires forall r: nat, k: nat :: r < t.clip.h && k < t.RowLength() ==> t.TilePos(r, k) < |tile|
    requires forall r: nat :: r < t.clip.h ==> RowStart(t, order, shape, sample, r) + t.RowLength() <= dest.Length
    modifies dest
    ensures forall r: nat, k: nat :: r < t.clip.h && k < t.RowLength() ==>
      dest[BufferPos(t, order, shape, sample, r, k)] == tile[t.TilePos(r, k)]
    ensures forall i :: 0 <= i < dest.Length && !IsBufferTarget(t, order, shape, sample, i, t.clip.h) ==>
      dest[i] == old(dest[i])
  {
    var count := t.clip.w * t.clip.h * t.copysamples;
    BlockCount(t);
    var start := RowStart(t, order, shape, sample, 0);
    var from := FastPathPos(t, 0, 0);
    if count > 0 {
      BlockBounds(t, order, shape, sample, |tile|, dest.Length);
      var block := tile[from .. from + count];
      CopyInto(dest, start, block);
      ReadBlockEffect(t, order, shape, sample, tile, old(dest[..]), dest[..], block);
    }
  }

  /** The block holds `rclip.h` rows of `RowLength()` samples; it is
      empty exactly when there are no rows or the rows are empty. */
  lemma BlockCount(t: Transfer)
    ensures t.clip.w * t.clip.h * t.copysamples == t.RowLength() * t.clip.h
    ensures t.RowLength() * t.clip.h == 0 <==> t.RowLength() == 0 || t.clip.h == 0
  {
    if t.RowLength() != 0 && t.clip.h != 0 {
      MulPos(t.RowLength(), t.clip.h);
    }
  }

  lemma MulPos(a: nat, b: nat)
    requires a > 0 && b > 0
    ensures a * b > 0
  {
    MulLe(1, a, b);
  }

  /** A non-empty block lies inside both the tile and the buffer when
      every clip row does. */
  lemma BlockBounds(t: Transfer, order: StorageOrder, shape: Extents, sample: nat, tileLength: nat, bufferLength: nat)
    requires t.Fits() && FastPath(t) && RowsContiguous(t, order, shape, sample)
    requires forall r: nat, k: nat :: r < t.clip.h && k < t.RowLength() ==> t.TilePos(r, k) < tileLength
    requires forall r: nat :: r < t.clip.h ==> RowStart(t, order, shape, sample, r) + t.RowLength() <= bufferLength
    requires t.RowLength() * t.clip.h > 0
    ensures FastPathPos(t, 0, 0) + t.RowLength() * t.clip.h <= tileLength
    ensures RowStart(t, order, shape, sample, 0) + t.RowLength() * t.clip.h <= bufferLength
  {
    var n := t.RowLength();
    var h1: nat := t.clip.h - 1;
    FastPathAgrees(t, h1, n - 1);
    assert t.TilePos(h1, n - 1) < tileLength;
    assert RowStart(t, order, shape, sample, h1) + n <= bufferLength;
    assert h1 * n + n == n * t.clip.h;
  }

  /** What the block copy of `ReadBlock` leaves in the buffer. */
  lemma ReadBlockEffect<T>(t: Transfer, order: StorageOrder, shape: Extents, sample: nat,
                           tile: seq<T>, orig: seq<T>, after: seq<T>, block: seq<T>)
    requires t.Fits() && FastPath(t) && RowsContiguous(t, order, shape, sample)
    requires |orig| == |after|
    requires FastPathPos(t, 0, 0) + t.RowLength() * t.clip.h <= |tile|
    requires block == tile[FastPathPos(t, 0, 0) .. FastPathPos(t, 0, 0) + t.RowLength() * t.clip.h]
    requires RowStart(t, order, shape, sample, 0) + |block| <= |after|
    requires forall j :: 0 <= j < |block| ==> after[RowStart(t, order, shape, sample, 0) + j] == block[j]
    requires forall i :: 0 <= i < |after| && !(RowStart(t, order, shape, sample, 0) <= i < RowStart(t, order, shape, sample, 0) + |block|) ==>
      after[i] == orig[i]
    ensures forall r: nat, k: nat :: r < t.clip.h && k < t.RowLength() ==>
      BufferPos(t, order, shape, sample, r, k) < |after| && t.TilePos(r, k) < |tile| &&
      after[BufferPos(t, order, shape, sample, r, k)] == tile[t.TilePos(r, k)]
    ensures forall i :: 0 <= i < |after| && !IsBufferTarget(t, order, shape, sample, i, t.clip.h) ==> after[i] == orig[i]
  {
    var n := t.RowLength();
    forall r: nat, k: nat | r < t.clip.h && k < n
      ensures BufferPos(t, order, shape, sample, r, k) < |after| && t.TilePos(r, k) < |tile|
      ensures after[BufferPos(t, order, shape, sample, r, k)] == tile[t.TilePos(r, k)]
    {
      ReadBlockAt(t, order, shape, sample, tile, after, block, r, k);
    }
    forall i | 0 <= i < |after| && !IsBufferTarget(t, order, shape, sample, i, t.clip.h)
      ensures after[i] == orig[i]
    {
      InBlockIsBufferTarget(t, order, shape, sample, i);
    }
  }

  /** One sample of the block copy of `ReadBlock`. */
  lemma ReadBlockAt<T>(t: Transfer, order: StorageOrder, shape: Extents, sample: nat,
                       tile: seq<T>, after: seq<T>, block: seq<T>, r: nat, k: nat)
    requires t.Fits() && FastPath(t) && RowsContiguous(t, order, shape, sample)
    requires r < t.clip.h && k < t.RowLength()
    requires FastPathPos(t, 0, 0) + t.RowLength() * t.clip.h <= |tile|
    requires block == tile[FastPathPos(t, 0, 0) .. FastPathPos(t, 0, 0) + t.RowLength() * t.clip.h]
    requires RowStart(t, order, shape, sample, 0) + |block| <= |after|
    requires forall j :: 0 <= j < |block| ==> after[RowStart(t, order, shape, sample, 0) + j] == block[j]
    ensures BufferPos(t, order, shape, sample, r, k) < |after| && t.TilePos(r, k) < |tile|
    ensures after[BufferPos(t, order, shape, sample, r, k)] == tile[t.TilePos(r, k)]
  {
    BlockPositions(t, order, shape, sample, r, k);
    var j: nat := r * t.RowLength() + k;
    assert after[RowStart(t, order, shape, sample, 0) + j] == block[j];
    assert block[j] == tile[FastPathPos(t, 0, 0) + j];
  }

  /** The discontiguous branch of the read visitor's `transfer`: one
      copy per clip row. */
  method ReadRows<T>(dest: array<T>, tile: seq<T>, t: Transfer, order: StorageOrder, shape: Extents, sample: nat)
    requires t.Fits()
    requires forall r: nat, k: nat :: r < t.clip.h && k < t.RowLength() ==> t.TilePos(r, k) < |tile|
    requires forall r: nat :: r < t.clip.h ==> RowStart(t, order, shape, sample, r) + t.RowLength() <= dest.Length
    requires RowsApart(t, order, shape, sample)
    modifies dest
    ensures forall r: nat, k: nat :: r < t.clip.h && k < t.RowLength() ==>
      dest[BufferPos(t, order, shape, sample, r, k)] == tile[t.TilePos(r, k)]
    ensures forall i :: 0 <= i < dest.Length && !IsBufferTarget(t, order, shape, sample, i, t.clip.h) ==>
      dest[i] == old(dest[i])
  {
    var n := t.RowLength();
    if n == 0 {
      // Every row copy is empty.
      return;
    }
    var xoffset := (t.clip.x - t.full.x) * t.copysamples;
    var row := t.clip.y;
    while row != t.clip.y + t.clip.h
      invariant t.clip.y <= row <= t.clip.y + t.clip.h
      invariant forall r: nat, k: nat :: r < row - t.clip.y && k < n ==>
        dest[BufferPos(t, order, shape, sample, r, k)] == tile[t.TilePos(r, k)]
      invariant forall i :: 0 <= i < dest.Length && !IsBufferTarget(t, order, shape, sample, i, row - t.clip.y) ==>
        dest[i] == old(dest[i])
    {
      var r := row - t.clip.y;
      var yoffset := (row - t.full.y) * (t.full.w * t.copysamples);
      RowBaseClosed(t, r);
      assert yoffset + xoffset == t.TilePos(r, 0);
      var start := RowStart(t, order, shape, sample, r);
      ghost var before := dest[..];
      assert t.TilePos(r, n - 1) < |tile|;
      var src := tile[yoffset + xoffset .. yoffset + xoffset + n];
      CopyInto(dest, start, src);
      ReadRowStep(t, order, shape, sample, r, tile, old(dest[..]), before, dest[..], start, yoffset + xoffset, src);
      row := row + 1;
    }
  }


  /** The `transfer` of the write visitor for every pixel type but BIT:
      every sample of the clip is copied from the image buffer into its
      tile element; no other tile element changes. */
  method WriteTransfer<T>(tile: array<T>, data: seq<T>, t: Transfer, planar: PlanarConfiguration, samples: nat, sample: nat,
                          order: StorageOrder, shape: Extents)
    requires ImageTransfer(t, planar, samples, sample)
    requires order == ImageOrder(planar) && shape == ImageShape(t.region.w, t.region.h, samples)
    requires forall r: nat, k: nat :: r < t.clip.h && k < t.RowLength() ==> t.TilePos(r, k) < tile.Length
    requires forall r: nat :: r < t.clip.h ==> RowStart(t, order, shape, sample, r) + t.RowLength() <= |data|
    modifies tile
    ensures forall r: nat, k: nat :: r < t.clip.h && k < t.RowLength() ==>
      tile[t.TilePos(r, k)] == data[BufferPos(t, order, shape, sample, r, k)]
    ensures forall q: nat :: q < tile.Length && !IsTileTarget(t, q, t.clip.h) ==> tile[q] == old(tile[q])
  {
    if FastPath(t) {
      FastPathContiguous(t, planar, samples, sample);
      WriteBlock(tile, data, t, order, shape, sample);
    } else {
      WriteRows(tile, data, t, order, shape, sample);
    }
  }

  /** The contiguous branch of the write visitor's `transfer`, copying
      to where the clip starts in the tile. */
  method WriteBlock<T>(tile: array<T>, data: seq<T>, t: Transfer, order: StorageOrder, shape: Extents, sample: nat)
    requires t.Fits() && FastPath(t) && RowsContiguous(t, order, shape, sample)
    requires forall r: nat, k: nat :: r < t.clip.h && k < t.RowLength() ==> t.TilePos(r, k) < tile.Length
    requires forall r: nat :: r < t.clip.h ==> RowStart(t, order, shape, sample, r) + t.RowLength() <= |data|
    modifies tile
    ensures forall r: nat, k: nat :: r < t.clip.h && k < t.RowLength() ==>
      tile[t.TilePos(r, k)] == data[BufferPos(t, order, shape, sample, r, k)]
    ensures forall q: nat :: q < tile.Length && !IsTileTarget(t, q, t.clip.h) ==> tile[q] == old(tile[q])
  {
    var count := t.clip.w * t.clip.h * t.copysamples;
    BlockCount(t);
    var start := RowStart(t, order, shape, sample, 0);
    var to := FastPathPos(t, 0, 0);
    if count > 0 {
      BlockBounds(t, order, shape, sample, tile.Length, |data|);
      var block := data[start .. start + count];
      CopyInto(tile, to, block);
      WriteBlockEffect(t, order, shape, sample, data, old(tile[..]), tile[..], block);
    }
  }

  /** What the block copy of `WriteBlock` leaves in the tile. */
  lemma WriteBlockEffect<T>(t: Transfer, order: StorageOrder, shape: Extents, sample: nat,
                            data: seq<T>, orig: seq<T>, after: seq<T>, block: seq<T>)
    requires t.Fits() && FastPath(t) && RowsContiguous(t, order, shape, sample)
    requires |orig| == |after|
    requires RowStart(t, order, shape, sample, 0) + t.RowLength() * t.clip.h <= |data|
    requires block == data[RowStart(t, order, shape, sample, 0) .. RowStart(t, order, shape, sample, 0) + t.RowLength() * t.clip.h]
    requires FastPathPos(t, 0, 0) + |block| <= |after|
    requires forall j :: 0 <= j < |block| ==> after[FastPathPos(t, 0, 0) + j] == block[j]
    requires forall q :: 0 <= q < |after| && !(FastPathPos(t, 0, 0) <= q < FastPathPos(t, 0, 0) + |block|) ==>
      after[q] == orig[q]
    ensures forall r: nat, k: nat :: r < t.clip.h && k < t.RowLength() ==>
      t.TilePos(r, k) < |after| && BufferPos(t, order, shape, sample, r, k) < |data| &&
      after[t.TilePos(r, k)] == data[BufferPos(t, order, shape, sample, r, k)]
    ensures forall q: nat :: q < |after| && !IsTileTarget(t, q, t.clip.h) ==> after[q] == orig[q]
  {
    var n := t.RowLength();
    forall r: nat, k: nat | r < t.clip.h && k < n
      ensures t.TilePos(r, k) < |after| && BufferPos(t, order, shape, sample, r, k) < |data|
      ensures after[t.TilePos(r, k)] == data[BufferPos(t, order, shape, sample, r, k)]
    {
      WriteBlockAt(t, order, shape, sample, data, after, block, r, k);
    }
    forall q: nat | q < |after| && !IsTileTarget(t, q, t.clip.h)
      ensures after[q] == orig[q]
    {
      InBlockIsTileTarget(t, q);
    }
  }

  /** One sample of the block copy of `WriteBlock`. */
  lemma WriteBlockAt<T>(t: Transfer, order: StorageOrder, shape: Extents, sample: nat,
                        data: seq<T>, after: seq<T>, block: seq<T>, r: nat, k: nat)
    requires t.Fits() && FastPath(t) && RowsContiguous(t, order, shape, sample)
    requires r < t.clip.h && k < t.RowLength()
    requires RowStart(t, order, shape, sample, 0) + t.RowLength() * t.clip.h <= |data|
    requires block == data[RowStart(t, order, shape, sample, 0) .. RowStart(t, order, shape, sample, 0) + t.RowLength() * t.clip.h]
    requires FastPathPos(t, 0, 0) + |block| <= |after|
    requires forall j :: 0 <= j < |block| ==> after[FastPathPos(t, 0, 0) + j] == block[j]
    ensures t.TilePos(r, k) < |after| && BufferPos(t, order, shape, sample, r, k) < |data|
    ensures after[t.TilePos(r, k)] == data[BufferPos(t, order, shape, sample, r, k)]
  {
    BlockPositions(t, order, shape, sample, r, k);
    var j: nat := r * t.RowLength() + k;
    assert after[FastPathPos(t, 0, 0) + j] == block[j];
    assert block[j] == data[RowStart(t, order, shape, sample, 0) + j];
  }

  /** The discontiguous branch of the write visitor's `transfer`: one
      copy per clip row. */
  method WriteRows<T>(tile: array<T>, data: seq<T>, t: Transfer, order: StorageOrder, shape: Extents, sample: nat)
    requires t.Fits()
    requires forall r: nat, k: nat :: r < t.clip.h && k < t.RowLength() ==> t.TilePos(r, k) < tile.Length
    requires forall r: nat :: r < t.clip.h ==> RowStart(t, order, shape, sample, r) + t.RowLength() <= |data|
    modifies tile
    ensures forall r: nat, k: nat :: r < t.clip.h && k < t.RowLength() ==>
      tile[t.TilePos(r, k)] == data[BufferPos(t, order, shape, sample, r, k)]
    ensures forall q: nat :: q < tile.Length && !IsTileTarget(t, q, t.clip.h) ==> tile[q] == old(tile[q])
  {
    var n := t.RowLength();
    if n == 0 {
      // Every row copy is empty.
      return;
    }
    var xoffset := (t.clip.x - t.full.x) * t.copysamples;
    var row := t.clip.y;
    while row < t.clip.y + t.clip.h
      invariant t.clip.y <= row <= t.clip.y + t.clip.h
      invariant forall r: nat, k: nat :: r < row - t.clip.y && k < n ==>
        tile[t.TilePos(r, k)] == data[BufferPos(t, order, shape, sample, r, k)]
      invariant forall q: nat :: q < tile.Length && !IsTileTarget(t, q, row - t.clip.y) ==> tile[q] == old(tile[q])
    {
      var r := row - t.clip.y;
      var yoffset := (row - t.full.y) * (t.full.w * t.copysamples);
      RowBaseClosed(t, r);
      assert yoffset + xoffset == t.TilePos(r, 0);
      var start := RowStart(t, order, shape, sample, r);
      ghost var before := tile[..];
      assert t.TilePos(r, n - 1) < tile.Length;
      var src := data[start .. start + n];
      CopyInto(tile, yoffset + xoffset, src);
      WriteRowStep(t, order, shape, sample, r, data, old(tile[..]), before, tile[..], yoffset + xoffset, src);
      row := row + 1;
    }
  }

  /** The invariant step of the row loop that writes a tile: row `r`
      has been copied to the tile from position `base` on. */
  lemma WriteRowStep<T>(t: Transfer, order: StorageOrder, shape: Extents, sample: nat, r: nat, data: seq<T>,
                        orig: seq<T>, before: seq<T>, after: seq<T>, base: nat, src: seq<T>)
    requires t.Fits() && |orig| == |before| == |after|
    requires r < t.clip.h && base == t.TilePos(r, 0)
    requires forall r': nat, k: nat :: r' < t.clip.h && k < t.RowLength() ==> t.TilePos(r', k) < |orig|
    requires forall r': nat :: r' < t.clip.h ==> RowStart(t, order, shape, sample, r') + t.RowLength() <= |data|
    requires forall r': nat, k: nat :: r' < r && k < t.RowLength() ==>
      before[t.TilePos(r', k)] == data[BufferPos(t, order, shape, sample, r', k)]
    requires forall q: nat :: q < |orig| && !IsTileTarget(t, q, r) ==> before[q] == orig[q]
    requires base + t.RowLength() <= |orig|
    requires src == data[RowStart(t, order, shape, sample, r) .. RowStart(t, order, shape, sample, r) + t.RowLength()]
    requires forall j :: 0 <= j < |src| ==> after[base + j] == src[j]
    requires forall q :: 0 <= q < |orig| && !(base <= q < base + t.RowLength()) ==> after[q] == before[q]
    ensures forall r': nat, k: nat :: r' < r + 1 && k < t.RowLength() ==>
      after[t.TilePos(r', k)] == data[BufferPos(t, order, shape, sample, r', k)]
    ensures forall q: nat :: q < |orig| && !IsTileTarget(t, q, r + 1) ==> after[q] == orig[q]
  {
    var n := t.RowLength();
    forall r': nat, k: nat | r' < r + 1 && k < n
      ensures after[t.TilePos(r', k)] == data[BufferPos(t, order, shape, sample, r', k)]
    {
      if r' < r {
        TilePosInRow(t, r', k);
        TilePosInRow(t, r, 0);
        RowBaseMonotone(t, r' + 1, r);
        assert t.TilePos(r', k) < base;
      } else {
        assert t.TilePos(r, k) == base + k;
        assert src[k] == data[BufferPos(t, order, shape, sample, r, k)];
      }
    }
    forall q: nat | q < |orig| && !IsTileTarget(t, q, r + 1)
      ensures after[q] == orig[q]
    {
      InRowIsTileTarget(t, r, q);
      assert !IsTileTarget(t, q, r);
    }
  }
}
