# OME Files: a verified model of the image I/O core

OME Files is a C++ library that reads and writes microscopy images in
the OME-TIFF format. This project models its sequential core in Dafny
and proves what that code promises. One Dafny module stands for each
source file:

- `PixelProperties` (`pixel_properties.dfy`): the per-type constants
  (bytes, bits, significant bits, signed, integer, floating point,
  complex) and the reverse searches `pixelTypeFromBytes` and
  `pixelTypeFromBits`.
- `PixelBuffer` (`pixel_buffer.dfy`): the interleaved (chunky) and planar
  storage orders and where an element lives under each.
- `Variant` (`variant_pixel_buffer.dfy`): `VariantPixelBuffer` as a class
  holding a shared pointer to a typed buffer. It covers equality, assignment,
  the aliasing copy constructor and the queries that need a buffer.
- `Codecs` (`codec.dfy`): the per-pixel-type codec filter, the
  name-to-scheme lookup and the memoised tables of `getCodecNames` and
  `getCodecScheme`. The codec list libtiff reports is an input.
- `TileCoverage` (`tile_coverage.dfy`): the set of non-overlapping
  rectangles that records which part of a tile has been written. It
  covers plain and coalescing insert, remove, clear, coverage and covered.
- `Tiles` (`tile_info.dfy`): tile numbering, the regions of tiles and
  the sample plane a tile belongs to.
- `Ifd` (`ifd.dfy`): the TIFF directory logic that does not call libtiff:
  - mapping the pixel type to SampleFormat and BitsPerSample
    (TIFF 6.0, Section 19 and Section 8);
  - the strip read check;
  - the `writeImage` and `readImage` type, shape and order checks;
  - the `transfer` loops of the read and write visitors, typed and 1-bit,
    over arrays. 1-bit samples are packed most significant bit first
    (TIFF 6.0, Section 8, FillOrder 1).
- `IfdDirectory` (`ifd_directory.dfy`):
  - the cached getters and setters of an IFD, as a class over a tag map;
  - the write visitor's bookkeeping, as a class: one coverage per sample
    plane, the tile cache, and the flush of a tile once it is covered.
- `MinimalTiff` (`minimal_tiff_writer.dfy`): the state machine of
  `MinimalTIFFWriter`. It covers the default strip and tile layout, the
  series-to-directory range table, the advance of the directory index on
  series and plane changes, the index check of `saveBytes`, and `close`.
- `MetadataList` (`metadata_list.dfy`) and `CoreMetadataList`
  (`core_metadata_list.dfy`): `sizes`, and `orderResolutions`, modelled as
  an in-place sort of each series' array of resolutions.
- `Fractal` (`fractal.dfy`): the integer parts of the fractal example. It
  covers `blend_samples`, `set_pixel`, the tile counts and the round-robin
  deal of tiles to worker lists.
- `Wrappers` (`wrappers.dfy`): `Option`, `Result` and `Outcome`. The
  source's exceptions are modelled as `Failure` values.
- `Arith` (`arith.dfy`): two monotonicity facts about multiplication,
  shared by the index and size bounds of the other modules.

Several headers the core relies on are not part of this model. The model
gives each of them a concrete definition, as follows:

- `PlaneRegion`:
  - `valid()` means a positive width and height;
  - `&` is the intersection of half-open rectangles, and `(0, 0, 0, 0)`
    when they do not meet;
  - `|` merges two valid rectangles that share a full edge and is
    invalid otherwise;
  - `area()` is width times height.
- `TileInfo`: tiles are numbered row by row within a sample plane, and
  separate planes follow one another, as in TIFF 6.0, Section 15.
  `tileRegion` is the tile's rectangle and `tileSample` its plane.
  `tileCoverage(region)` gives the indices of the tiles a region touches.
  It is not modelled: `IfdDirectory.WriteCache.WriteTiles` takes that
  list of tile indices as an input and constrains it in no way. The
  per-plane coverage vector is the write visitor's own `tilecoverage`
  member, modelled as `WriteCache.coverage`.
- `tiff::ifdIndex` (tiff/Util.h): it fails when the series is out of
  range or the plane is past its range, and otherwise gives the range
  start plus the plane.
- `PixelProperties.h`: the constants of each type, with BIT stored in
  one byte of eight bits of which one is significant. Floating-point and
  complex types count as signed.
- `PixelBuffer.h`: two buffers are equal when they have the same shape and
  the same elements. `assign(begin, end)` is given a range of exactly as
  many values as the buffer has elements; `Variant.VariantPixelBuffer.AssignRange`
  requires this of its caller.
- The Boost R-tree of `TileCoverage` is a sequence of boxes. A query
  returns the matching boxes in stored order; the source leaves that
  order unspecified.
- `FormatWriter`:
  - `setSeries` and `setPlane` reject values out of range and change
    nothing when they do;
  - `setSeries` resets the plane to 0.

## Model

| member | source | states |
|---|---|---|
| PixelProperties.BytesPerPixel | lib/ome/files/PixelProperties.cpp:64-75 | every pixel type stores 1, 2, 4, 8 or 16 bytes per sample, and exactly INT8, UINT8 and BIT take one byte |
| PixelProperties.BitsPerPixel | lib/ome/files/PixelProperties.cpp:84-95 | the storage size in bits is eight times the byte size |
| PixelProperties.SignificantBitsPerPixel | lib/ome/files/PixelProperties.cpp:104-115 | the significant bits are positive, at most the storage bits, and all of them for every type except BIT |
| PixelProperties.PropertiesConsistent | lib/ome/files/PixelProperties.cpp:124-181 | unsigned types are integers, complex types are signed and floating point, `isFloatingPoint` is the negation of `isInteger`, bits are eight times bytes |
| PixelProperties.PixelTypeFromBytes | lib/ome/files/PixelProperties.cpp:189-248 | a found type has exactly the requested size and flags and is never BIT; whenever such a type exists it is found; a failure is a logic error exactly when the flags contradict each other (unsigned but not integer or complex, or complex and integer) and a runtime error otherwise |
| PixelProperties.PixelTypeFromBits | lib/ome/files/PixelProperties.cpp:250-259 | a bit size that is not a multiple of 8 is a runtime error; otherwise the byte lookup of size/8; a found type has exactly that many bits |
| PixelProperties.FromBytesInverts | lib/ome/files/PixelProperties.cpp:189-259 | every type but BIT is found again from its own size and flags, by bytes and by bits |
| PixelProperties.BitLooksUpAsUInt8 | lib/ome/files/PixelProperties.cpp:202-203 | BIT's own properties look up UINT8, which is tried first |
| PixelBuffer.MakeStorageOrder | lib/ome/files/PixelBuffer.cpp:55-78 | the order names all four dimensions once, all ascending; samples come first exactly when interleaved and last exactly when planar |
| PixelBuffer.SpatialOrder | lib/ome/files/PixelBuffer.cpp:59-76 | in both orders the spatial dimensions come in the order X, Y, Z |
| PixelBuffer.OrdersDistinct | lib/ome/files/PixelBuffer.cpp:55-78 | the interleaved and planar orders differ, so the flag is recovered from the order |
| PixelBuffer.MakeStorageOrderFor | lib/ome/files/PixelBuffer.cpp:80-85 | the DimensionOrder argument is ignored: the result is the single-argument order |
| PixelBuffer.DefaultStorageOrder | lib/ome/files/PixelBuffer.cpp:91-95 | the default is the interleaved order and differs from the planar one |
| PixelBuffer.OffsetBound | lib/ome/files/PixelBuffer.cpp:55-78 | with all-ascending orders, an index within the extents has a memory offset below the buffer's volume |
| Variant.CompareIsPartialEquivalence | lib/ome/files/VariantPixelBuffer.cpp:210-225 | buffer equality is symmetric and transitive, a variant equals itself exactly when its buffer is not null, and equal variants hold equal values |
| Variant.CompareNeedsTypeAndData | lib/ome/files/VariantPixelBuffer.cpp:210-225 | different alternatives never compare equal, a null buffer equals nothing, and the same alternative with equal non-null contents always compares equal |
| Variant.VariantPixelBuffer.Copy | lib/ome/files/VariantPixelBuffer.cpp:320-325 | the copy holds the same alternative and the same buffer pointer as the original |
| Variant.CopyEqualsOriginal | lib/ome/files/VariantPixelBuffer.cpp:53-69 | a copy sharing the buffer equals the original exactly when the buffer is not null, and is unequal exactly when it is null |
| Variant.NotEqualsNegates | lib/ome/files/VariantPixelBuffer.cpp:418-428 | `!=` is the negation of `==`, and `==` is symmetric |
| Variant.VariantPixelBuffer.IsValid | lib/ome/files/VariantPixelBuffer.cpp:71-81 | a null buffer is the "Null pixel type" error and any other buffer succeeds |
| Variant.VariantPixelBuffer.Managed | lib/ome/files/VariantPixelBuffer.cpp:83-93 | fails exactly on a null buffer |
| Variant.VariantPixelBuffer.NumElements | lib/ome/files/VariantPixelBuffer.cpp:95-105 | fails exactly on a null buffer; otherwise the number of stored elements |
| Variant.VariantPixelBuffer.NumDimensions | lib/ome/files/VariantPixelBuffer.cpp:107-117 | fails exactly on a null buffer |
| Variant.VariantPixelBuffer.Shape | lib/ome/files/VariantPixelBuffer.cpp:119-129 | fails exactly on a null buffer |
| Variant.VariantPixelBuffer.Order | lib/ome/files/VariantPixelBuffer.cpp:155-165 | fails exactly on a null buffer |
| Variant.VariantPixelBuffer.PixelTypeOf | lib/ome/files/VariantPixelBuffer.cpp:289-299 | fails exactly on a null buffer |
| Variant.VariantPixelBuffer.EndianOf | lib/ome/files/VariantPixelBuffer.cpp:301-311 | fails exactly on a null buffer |
| Variant.VariantPixelBuffer.Data | lib/ome/files/VariantPixelBuffer.cpp:167-189 | fails exactly on a null buffer and otherwise gives the held buffer itself |
| Variant.VariantPixelBuffer.ArrayOf | lib/ome/files/VariantPixelBuffer.cpp:191-208 | another element type is the conversion error even for a null buffer; the held type on a null buffer is the null error; success gives the buffer's elements |
| Variant.QueriesNeedBuffer | lib/ome/files/VariantPixelBuffer.cpp:71-311 | every query fails on a null buffer and every query succeeds on a non-null one |
| Variant.VariantPixelBuffer.Assign | lib/ome/files/VariantPixelBuffer.cpp:227-255 | different alternatives fail with the conversion error even when a pointer is null, different shapes with the dimensions error, and neither changes the buffer; otherwise the contents become the right side's and the two compare equal; the fixed attributes never change |
| Variant.VariantPixelBuffer.AssignRange | lib/ome/files/VariantPixelBuffer.cpp:257-287 | a value type other than the held one fails with the conversion error, a null buffer with the null error; otherwise the elements become the range and the shape is kept |
| Codecs.RuleOf | lib/ome/files/tiff/Codec.cpp:109-173 | each scheme falls under exactly one case of the filter: never offered, bilevel, JPEG, or offered for every type |
| Codecs.FilterRules | lib/ome/files/tiff/Codec.cpp:109-173 | NONE, OJPEG and the incompatible schemes are never offered; bilevel schemes exactly for BIT; LZW, Deflate, AdobeDeflate, LZMA and JP2000 for every type; JPEG exactly for UINT8; unknown schemes for every type |
| Codecs.FilteredMembers | lib/ome/files/tiff/Codec.cpp:103-175 | the per-type list holds exactly the configured codecs offered for that type |
| Codecs.FilteredInOrder | lib/ome/files/tiff/Codec.cpp:103-175 | the per-type list is the configured list with some codecs left out, the rest in their original order |
| Codecs.OfferedNames | lib/ome/files/tiff/Codec.cpp:103-175 | a name is in the per-type list exactly when some configured codec of that name is offered for the type |
| Codecs.Names | lib/ome/files/tiff/Codec.cpp:83-90 | one name per codec, in the same order |
| Codecs.SchemeOfFirst | lib/ome/files/tiff/Codec.cpp:184-205 | the lookup gives the scheme of the first codec of that name, and COMPRESSION_NONE when no codec has it |
| Codecs.SchemeOfAppend | lib/ome/files/tiff/Codec.cpp:189-196 | a codec added after the others is found only when none of them has its name |
| Codecs.FirstByNameLookup | lib/ome/files/tiff/Codec.cpp:189-204 | the name map built with `std::map::insert` (first insertion wins) holds exactly the configured names, and looking a name up in it agrees with the first-codec lookup |
| Codecs.FirstByNameNames | lib/ome/files/tiff/Codec.cpp:189-196 | the map's keys are exactly the configured names |
| Codecs.CodecRegistry.GetCodecs | lib/ome/files/tiff/Codec.cpp:55-76 | the result is the configured list, which is remembered; the other tables are unchanged |
| Codecs.CodecRegistry.GetCodecNames | lib/ome/files/tiff/Codec.cpp:78-93 | the result is the names of the configured codecs, in order |
| Codecs.CodecRegistry.FilterNames | lib/ome/files/tiff/Codec.cpp:103-175 | the loop collects the names of exactly the offered codecs, in order |
| Codecs.CodecRegistry.GetCodecNamesFor | lib/ome/files/tiff/Codec.cpp:95-182 | the result is the names of the offered configured codecs; it is remembered for the type, and a type already remembered leaves the table unchanged |
| Codecs.CodecRegistry.GetCodecScheme | lib/ome/files/tiff/Codec.cpp:184-205 | the scheme of the first configured codec of that name, or COMPRESSION_NONE |
| TileCoverage.Intersect | lib/ome/files/TileCoverage.cpp:234-238 | a pixel is in `a & b` exactly when it is in both; a valid result lies in both; an empty result is the all-zero region |
| TileCoverage.Union | lib/ome/files/TileCoverage.cpp:169-177 | a valid merge of `a` and `b` comes from two valid regions that share no pixel and neither contains the other; its pixels are exactly theirs, it contains both, and its area is the sum of theirs; otherwise the all-zero region |
| TileCoverage.UnionMergesNeighbours | lib/ome/files/TileCoverage.cpp:169-177 | two regions merge exactly when both are valid and they share a full edge, and then into their bounding rectangle |
| TileCoverage.AreaZero | lib/ome/files/TileCoverage.cpp:237-238 | a region has zero area exactly when it is not valid |
| TileCoverage.BoxFromRegion | lib/ome/files/TileCoverage.cpp:61-66 | the box has its minimum corner not beyond its maximum, and converts back to the same region |
| TileCoverage.RegionFromBox | lib/ome/files/TileCoverage.cpp:68-76 | the region starts at the minimum corner and ends at the maximum corner |
| TileCoverage.BoxRoundTrip | lib/ome/files/TileCoverage.cpp:61-76 | a proper box converts to a region and back unchanged |
| TileCoverage.Touching | lib/ome/files/TileCoverage.cpp:113-122 | the query gives stored boxes that touch the query box, no more of them than are stored |
| TileCoverage.TouchingExactly | lib/ome/files/TileCoverage.cpp:113-122 | the query is exhaustive: a box is in the result exactly when it is stored and touches the query box |
| TileCoverage.OverlapTouches | lib/ome/files/TileCoverage.cpp:113-122 | a stored box that shares a pixel with a region touches the region's box, so the query misses none |
| TileCoverage.CoveredAreaOfTouching | lib/ome/files/TileCoverage.cpp:223-242 | summing over the queried boxes gives the same area as summing over all stored boxes |
| TileCoverage.CoveredCellsCount | lib/ome/files/TileCoverage.cpp:223-242 | with non-overlapping boxes, the summed area is the number of distinct pixels of the region that are covered |
| TileCoverage.CoveredCellsHas | lib/ome/files/TileCoverage.cpp:223-242 | a pixel of the region is counted exactly when some stored box holds it |
| TileCoverage.CoverageBound | lib/ome/files/TileCoverage.cpp:223-242 | with non-overlapping boxes, `coverage(r)` is at most r's area |
| TileCoverage.CoveredAreaZeroAll | lib/ome/files/TileCoverage.cpp:140-148 | zero coverage means the region shares no pixel with any stored box |
| TileCoverage.RemoveUnique | lib/ome/files/TileCoverage.cpp:203-209 | removing a stored box from a non-overlapping store removes its only copy, keeps every other box, and lowers the total area by its area |
| TileCoverage.PendingShrinks | lib/ome/files/TileCoverage.cpp:159-179 | every pass that merges leaves fewer unmerged query results, which bounds the `while (merged)` loop |
| TileCoverage.TileCoverage.Clear | lib/ome/files/TileCoverage.cpp:217-221 | afterwards no box is stored and `size()` is 0 |
| TileCoverage.TileCoverage.Coverage | lib/ome/files/TileCoverage.cpp:223-242 | the loop sums the intersection areas over the queried boxes, which is the area over all stored boxes, and at most the region's area |
| TileCoverage.TileCoverage.Covered | lib/ome/files/TileCoverage.cpp:244-248 | true exactly when the coverage equals the region's area, and exactly when every pixel of the region lies in a stored box |
| TileCoverage.TileCoverage.Remove | lib/ome/files/TileCoverage.cpp:203-209 | true exactly when a box equal to the region's was stored; the first such box is taken out and nothing else changes |
| TileCoverage.TileCoverage.Insert | lib/ome/files/TileCoverage.cpp:134-201 | inserts exactly when the region's coverage was zero, and otherwise changes nothing; without coalescing one box is appended; afterwards the region is covered, the total area grew by the region's area, at most one box was added, and with coalescing the last box contains the region and every old box is kept or inside it; boxes never overlap |
| TileCoverage.TileCoverage.InsertDisjoint | lib/ome/files/TileCoverage.cpp:144-148 | the region's box is appended and the store stays non-overlapping |
| TileCoverage.TileCoverage.InsertCoalesced | lib/ome/files/TileCoverage.cpp:149-197 | the merged rectangle, which contains the region, is stored last; the boxes before it were all stored before; every old box is kept or merged into it; the total area grows by the region's area |
| TileCoverage.TileCoverage.MergeAdjacent | lib/ome/files/TileCoverage.cpp:154-179 | the merged rectangle is made of the region and the removed query results, which are distinct stored boxes, and it overlaps none of the other stored boxes |
| TileCoverage.TileCoverage.MergePass | lib/ome/files/TileCoverage.cpp:163-178 | one pass keeps the merge invariant, only appends to the removal list, and reports a merge exactly when it appended |
| TileCoverage.TileCoverage.MergeStep | lib/ome/files/TileCoverage.cpp:169-177 | merging one more query result keeps the merge invariant |
| TileCoverage.TileCoverage.RemoveAll | lib/ome/files/TileCoverage.cpp:181-190 | exactly the merged boxes are taken out; the total area and the box count drop by theirs |
| TileCoverage.TileCoverage.RemoveAllStep | lib/ome/files/TileCoverage.cpp:184-189 | one removal keeps the loop invariant of the removal loop |
| TileCoverage.TileCoverage.InsertMerged | lib/ome/files/TileCoverage.cpp:192-196 | the merged rectangle is appended, covers the region, and the store stays non-overlapping |
| TileCoverage.KeptDisjoint | lib/ome/files/TileCoverage.cpp:181-196 | the boxes left after the removals overlap neither the merged rectangle nor the region |
| TileCoverage.OverlapWithSelf | lib/ome/files/TileCoverage.cpp:244-248 | a region shares all of its area with itself |
| Ifd.SampleFormatOf | lib/ome/files/tiff/IFD.cpp:1146-1187 | `setPixelType` records unsigned integer exactly for the unsigned types, signed integer exactly for the signed integers, IEEE floating point exactly for FLOAT and DOUBLE, complex floating point exactly for the complex types |
| Ifd.DecodePixelType | lib/ome/files/tiff/IFD.cpp:1070-1141 | a decoded type has that SampleFormat and that many significant bits; every combination some type has is decoded; the rest are errors |
| Ifd.DecodeInjective | lib/ome/files/tiff/IFD.cpp:1070-1141 | two combinations that decode to the same type are the same combination |
| Ifd.SampleFormatOrDefault | lib/ome/files/tiff/IFD.cpp:1057-1066 | a missing SampleFormat reads as unsigned integer |
| Ifd.ClampBits | lib/ome/files/tiff/IFD.cpp:1201-1210 | the stored bits are the request or the type's significant bits, whichever is smaller |
| Ifd.PixelTypeRoundTrip | lib/ome/files/tiff/IFD.cpp:1146-1210 | the SampleFormat `setPixelType` writes and the bits `setBitsPerSample` stores for a type's storage size decode back to that type |
| Ifd.ExpectedRead | lib/ome/files/tiff/IFD.cpp:290-297 | for typed samples the strip check expects width times height times samples times the sample size |
| Ifd.ExpectedReadBitAsWritten | lib/ome/files/tiff/IFD.cpp:299-313 | the BIT size as written is at most (w + 1) * h * samples / 8 |
| Ifd.ExpectedReadBitShort | lib/ome/files/tiff/IFD.cpp:299-313 | a 9-pixel row of one sample needs 2 bytes but the check as written expects 1 |
| Ifd.ExpectedReadBitCorrectedBounds | lib/ome/files/tiff/IFD.cpp:299-313 | the corrected BIT size (rows padded to whole bytes) holds every bit, pads each row by fewer than eight bits, and agrees with the written one for widths that are multiples of 8 |
| Ifd.ExpectedReadFor | lib/ome/files/tiff/IFD.cpp:353-358 | the size the strip check uses: the typed size, and for BIT the corrected size of Findings row 1 (every row padded to whole bytes), where the source uses its as-written `expected_read` |
| Ifd.ReadCheck | lib/ome/files/tiff/IFD.cpp:343-359 | a tile read passes exactly when it returned the whole buffer, a strip read exactly when it returned at least the expected size; a negative count always fails |
| Ifd.ImageOrder | lib/ome/files/tiff/IFD.cpp:1352 | the directory's order is interleaved exactly when the planar configuration is contiguous |
| Ifd.WriteImageCheck | lib/ome/files/tiff/IFD.cpp:1448-1485 | passes exactly when the source has the directory's pixel type, the shape (w, h, 1, samples) and the directory's order; otherwise the first failing check's error, in the order type, shape (plane size before depth), order |
| Ifd.WriteImageSample | lib/ome/files/tiff/IFD.cpp:1496-1505 | writing one sample always fails |
| Ifd.ReadImageLayout | lib/ome/files/tiff/IFD.cpp:1354-1356 | afterwards the destination has the directory's type, shape and order, and it was reallocated exactly when it had not |
| Ifd.Bits | lib/ome/files/tiff/IFD.cpp:223-233 | eight bits per byte, most significant first |
| Ifd.SetBitEffect | lib/ome/files/tiff/IFD.cpp:514-525 | OR-ing a sample in at bit 7 - (q mod 8) of byte q / 8 sets bit q when the sample is set and changes no other bit |
| Ifd.PackStep | lib/ome/files/tiff/IFD.cpp:514-525 | one OR keeps the length and changes only the target bit |
| Ifd.PackRowStep | lib/ome/files/tiff/IFD.cpp:514-525 | one sample keeps the packing invariant |
| Ifd.PackRow | lib/ome/files/tiff/IFD.cpp:514-525 | each sample of a row is OR-ed into its bit and no other bit changes |
| Ifd.UnpackRow | lib/ome/files/tiff/IFD.cpp:223-233 | each element of the row becomes its bit read with the same mask, and no other element changes |
| Ifd.ZeroBitsClear | lib/ome/files/tiff/IFD.cpp:523-524 | every bit of a zeroed buffer is clear |
| Ifd.RowBaseClosed | lib/ome/files/tiff/IFD.cpp:505-507 | clip row r starts (clip.y - tile.y + r) whole tile rows into the tile |
| Ifd.TilePosInRow | lib/ome/files/tiff/IFD.cpp:496-525 | every sample of a clip row lands inside that row of the tile |
| Ifd.RowFits | lib/ome/files/tiff/IFD.cpp:496-525 | the clipped part of a row fits in the tile's row |
| Ifd.TilePosBound | lib/ome/files/tiff/IFD.cpp:522 | every bit the transfer touches lies inside the tile buffer |
| Ifd.NotEarlierTarget | lib/ome/files/tiff/IFD.cpp:501-527 | no earlier row writes a bit of a later row |
| Ifd.TilePosInjective | lib/ome/files/tiff/IFD.cpp:501-527 | distinct samples of the clip go to distinct tile positions |
| Ifd.PackTile | lib/ome/files/tiff/IFD.cpp:488-528 | every sample of every clip row is OR-ed into its tile bit and no other bit changes; into a zeroed tile the bits become exactly the samples |
| Ifd.PackTileStep | lib/ome/files/tiff/IFD.cpp:501-527 | one row keeps the invariant of the row loop |
| Ifd.UnpackTile | lib/ome/files/tiff/IFD.cpp:197-235 | every element of every clip row is read from its tile bit and no other element changes |
| Ifd.PackUnpack | lib/ome/files/tiff/IFD.cpp:196-235 | samples packed into a zeroed tile by the write transfer (IFD.cpp 486-528) and unpacked by the read transfer come back unchanged |
| Ifd.UnpackTileRow | lib/ome/files/tiff/IFD.cpp:210-234 | one row of the read loop keeps its invariant |
| Ifd.UnpackRowStep | lib/ome/files/tiff/IFD.cpp:210-234 | the invariant step of the BIT read loop |
| Ifd.ReadRowStep | lib/ome/files/tiff/IFD.cpp:177-192 | the invariant step of the typed read loop |
| Ifd.ImageOffset | lib/ome/files/tiff/IFD.cpp:1352 | the offset of an element of a directory-shaped buffer, for the interleaved and the planar order |
| Ifd.ImageRowStart | lib/ome/files/tiff/IFD.cpp:180-185 | successive clip rows start one pitch apart in the image buffer |
| Ifd.ImageRowsApart | lib/ome/files/tiff/IFD.cpp:177-192 | in a directory-shaped buffer the clip rows do not overlap and fit inside it |
| Ifd.ImageRowEnd | lib/ome/files/tiff/IFD.cpp:177-192 | every clip row ends inside a directory-shaped buffer |
| Ifd.FastPathSkipsRowOffset | lib/ome/files/tiff/IFD.cpp:154-168 | a 64 x 8 strip written from row 4 on passes the block-copy test, yet the block copy as written starts at tile element 0 while the clip's first sample is tile element 256 |
| Ifd.FastPathAgrees | lib/ome/files/tiff/IFD.cpp:154-192 | the corrected block copy takes each sample from the element the row-by-row copy takes it from |
| Ifd.FastPathContiguous | lib/ome/files/tiff/IFD.cpp:154-168 | on the block-copy path the clip rows are contiguous in the image buffer |
| Ifd.CopyInto | lib/ome/files/tiff/IFD.cpp:167-169 | `std::copy` writes the source at the given start and nothing else |
| Ifd.BlockPositions | lib/ome/files/tiff/IFD.cpp:154-168 | on the block-copy path sample k of row r is element r * rowlength + k of both blocks |
| Ifd.BlockBounds | lib/ome/files/tiff/IFD.cpp:154-168 | a non-empty block lies inside both the tile and the buffer |
| Ifd.ReadTransfer | lib/ome/files/tiff/IFD.cpp:146-193 | every sample of the clip is copied from its tile element to its buffer element, and no other buffer element changes; the block branch takes the corrected start of Findings row 2 |
| Ifd.ReadBlock | lib/ome/files/tiff/IFD.cpp:154-169 | the same for the block-copy branch, copying from the clip's place in the tile (the corrected start of Findings row 2), where the source copies from element 0 |
| Ifd.ReadBlockEffect | lib/ome/files/tiff/IFD.cpp:154-169 | what the block copy leaves in the buffer |
| Ifd.ReadRows | lib/ome/files/tiff/IFD.cpp:170-192 | the same for the row-by-row branch |
| Ifd.WriteTransfer | lib/ome/files/tiff/IFD.cpp:434-484 | every sample of the clip is copied from its buffer element to its tile element, and no other tile element changes; the block branch takes the corrected start of Findings row 2 |
| Ifd.WriteBlock | lib/ome/files/tiff/IFD.cpp:441-460 | the same for the block-copy branch, writing at the clip's place in the tile (the corrected start of Findings row 2), where the source writes from element 0 |
| Ifd.WriteBlockEffect | lib/ome/files/tiff/IFD.cpp:441-460 | what the block copy leaves in the tile |
| Ifd.WriteRows | lib/ome/files/tiff/IFD.cpp:461-483 | the same for the row-by-row branch |
| Ifd.WriteRowStep | lib/ome/files/tiff/IFD.cpp:466-482 | the invariant step of the typed write loop |
| IfdDirectory.NumberTag | lib/ome/files/tiff/IFD.cpp:806-833 | reading a tag succeeds exactly when it is present with a number, and gives that number |
| IfdDirectory.ImageWidthOf | lib/ome/files/tiff/IFD.cpp:940-950 | the cached width, or the ImageWidth tag |
| IfdDirectory.ImageHeightOf | lib/ome/files/tiff/IFD.cpp:959-969 | the cached height, or the ImageLength tag |
| IfdDirectory.TileTypeOf | lib/ome/files/tiff/IFD.cpp:888-907 | the cached type, else TILE when TileWidth and TileLength read, else STRIP when RowsPerStrip reads, else an error |
| IfdDirectory.TileWidthOf | lib/ome/files/tiff/IFD.cpp:978-995 | the cached width, else TileWidth for tiles and the image width for strips |
| IfdDirectory.TileHeightOf | lib/ome/files/tiff/IFD.cpp:1011-1030 | the cached height, else TileLength for tiles and RowsPerStrip for strips |
| IfdDirectory.BitsOf | lib/ome/files/tiff/IFD.cpp:1189-1198 | the cached bits, or the BitsPerSample tag |
| IfdDirectory.SamplesOf | lib/ome/files/tiff/IFD.cpp:1212-1222 | the cached count, or the SamplesPerPixel tag |
| IfdDirectory.PlanarOf | lib/ome/files/tiff/IFD.cpp:1231-1241 | the cached configuration, or the PlanarConfiguration tag |
| IfdDirectory.FormatOrDefault | lib/ome/files/tiff/IFD.cpp:1057-1066 | the SampleFormat tag, or unsigned integer when it cannot be read |
| IfdDirectory.PixelTypeOf | lib/ome/files/tiff/IFD.cpp:1046-1143 | the type set earlier, else an error when the bits cannot be read, else the decoding of the format (or its default) and the bits |
| IfdDirectory.PixelTypeSetGet | lib/ome/files/tiff/IFD.cpp:1146-1187 | after `setPixelType(t)` the getter returns t and the SampleFormat tag holds t's format |
| IfdDirectory.PixelTypeWrittenReadBack | lib/ome/files/tiff/IFD.cpp:1046-1210 | a directory written with a type's format and clamped bits, reopened with nothing cached, reads back that type |
| IfdDirectory.MissingFormatIsUnsigned | lib/ome/files/tiff/IFD.cpp:1057-1082 | without a SampleFormat tag the bits decode as unsigned: 8 bits is UINT8 and 1 bit is BIT |
| IfdDirectory.BitsClamped | lib/ome/files/tiff/IFD.cpp:1201-1210 | `setBitsPerSample` stores the request cut down to the type's significant bits, and a request within them unchanged |
| IfdDirectory.BitsNeedPixelType | lib/ome/files/tiff/IFD.cpp:1201-1204 | without a readable pixel type `setBitsPerSample` fails |
| IfdDirectory.TileWidthSetGet | lib/ome/files/tiff/IFD.cpp:997-1008 | a tile width set on a tiled directory is read back; on a strip directory nothing changes |
| IfdDirectory.TileHeightSetGet | lib/ome/files/tiff/IFD.cpp:1032-1044 | a tile height is read back for tiles and strips alike |
| IfdDirectory.StripGeometry | lib/ome/files/tiff/IFD.cpp:888-1030 | a strip directory read from a file is as wide as the image and RowsPerStrip high |
| IfdDirectory.FillTileWidthKeeps | lib/ome/files/tiff/IFD.cpp:978-995 | filling the width cache changes no getter's answer, a second fill changes nothing, and the cache then holds the answer |
| IfdDirectory.FillTileHeightKeeps | lib/ome/files/tiff/IFD.cpp:1011-1030 | the same for the height cache |
| IfdDirectory.PixelTypeReadTwice | lib/ome/files/tiff/IFD.cpp:1046-1143 | reading the pixel type twice gives the same answer and never caches the type itself |
| IfdDirectory.Directory.GetImageWidth | lib/ome/files/tiff/IFD.cpp:940-950 | returns the width and caches it |
| IfdDirectory.Directory.SetImageWidth | lib/ome/files/tiff/IFD.cpp:952-957 | writes the tag and the cache; the width reads back |
| IfdDirectory.Directory.GetImageHeight | lib/ome/files/tiff/IFD.cpp:959-969 | returns the height and caches it when it was read |
| IfdDirectory.Directory.SetImageHeight | lib/ome/files/tiff/IFD.cpp:971-976 | writes the tag and the cache |
| IfdDirectory.Directory.GetTileType | lib/ome/files/tiff/IFD.cpp:888-907 | returns the tile type and caches it |
| IfdDirectory.Directory.SetTileType | lib/ome/files/tiff/IFD.cpp:910-914 | only the cache changes |
| IfdDirectory.Directory.GetTileWidth | lib/ome/files/tiff/IFD.cpp:978-995 | returns the tile width and caches the type and the width |
| IfdDirectory.Directory.SetTileWidth | lib/ome/files/tiff/IFD.cpp:997-1008 | records the width for tiles only; fails, changing nothing, when the tile type cannot be read |
| IfdDirectory.Directory.GetTileHeight | lib/ome/files/tiff/IFD.cpp:1011-1030 | returns the tile height and caches the type and the height |
| IfdDirectory.Directory.SetTileHeight | lib/ome/files/tiff/IFD.cpp:1032-1044 | writes TileLength or RowsPerStrip and the cache; fails, changing nothing, when the tile type cannot be read |
| IfdDirectory.Directory.GetBitsPerSample | lib/ome/files/tiff/IFD.cpp:1189-1198 | returns the bits and caches them |
| IfdDirectory.Directory.GetPixelType | lib/ome/files/tiff/IFD.cpp:1046-1143 | returns the pixel type, caching only the bits it read |
| IfdDirectory.Directory.SetPixelType | lib/ome/files/tiff/IFD.cpp:1146-1187 | writes the SampleFormat tag and caches the type |
| IfdDirectory.Directory.SetBitsPerSample | lib/ome/files/tiff/IFD.cpp:1201-1210 | writes the clamped bits to the tag and the cache; fails when the pixel type cannot be read |
| IfdDirectory.Directory.GetSamplesPerPixel | lib/ome/files/tiff/IFD.cpp:1212-1222 | returns the count and caches it when it was read |
| IfdDirectory.Directory.SetSamplesPerPixel | lib/ome/files/tiff/IFD.cpp:1224-1229 | writes the tag and the cache |
| IfdDirectory.Directory.GetPlanarConfiguration | lib/ome/files/tiff/IFD.cpp:1231-1241 | returns the configuration and caches it when it was read |
| IfdDirectory.Directory.SetPlanarConfiguration | lib/ome/files/tiff/IFD.cpp:1243-1248 | writes the tag and the cache |
| IfdDirectory.ValidArea | lib/ome/files/tiff/IFD.cpp:398-405 | the part of a tile inside the image lies in both the tile and the image |
| IfdDirectory.DestSample | lib/ome/files/tiff/IFD.cpp:547-553 | writes go to the tile's own sample plane when planes are separate and to plane 0 otherwise |
| IfdDirectory.DestIsTileSample | lib/ome/files/tiff/IFD.cpp:402-408 | the coverage a write records in is the one `flush` consults, and it exists for every tile of the image |
| IfdDirectory.WholeTileDue | lib/ome/files/tiff/IFD.cpp:404-410 | a tile lying inside both the image and the written region is due once its clipped region is covered |
| IfdDirectory.WriteCache.ResizeCoverage | lib/ome/files/tiff/IFD.cpp:537-538 | afterwards there are n coverages; the first ones are kept and the added ones are new and empty |
| IfdDirectory.WriteCache.Flush | lib/ome/files/tiff/IFD.cpp:392-431 | a due tile (non-empty valid area, fully covered) is written once and dropped from the cache; any other tile changes nothing |
| IfdDirectory.WriteCache.WriteTile | lib/ome/files/tiff/IFD.cpp:540-569 | the tile's buffer is opened (once) before anything else; a coverage index past the end fails; otherwise the clipped region is recorded in its plane's coverage, no other plane changes, and the tile is written exactly when it is due |
| IfdDirectory.WriteCache.RecordTile | lib/ome/files/tiff/IFD.cpp:565-568 | records the clipped region and flushes the tile exactly when it is due |
| IfdDirectory.WriteCache.WriteTiles | lib/ome/files/tiff/IFD.cpp:532-570 | one coverage per sample plane (one when contiguous); only listed tiles are written or cached; on success every listed tile is cached or written; tiles of the image never fail |
| Tiles.CeilDivBounds | lib/ome/files/tiff/IFD.cpp:331-333 | the ceiling quotient of pieces covers the length, and one piece fewer would not |
| Tiles.TileSampleBound | lib/ome/files/tiff/IFD.cpp:333 | every tile belongs to one of the sample planes |
| Tiles.TileSplit | lib/ome/files/tiff/IFD.cpp:331-333 | a tile number is its plane times the tiles per plane plus its index in the plane |
| Tiles.TileAtHolds | lib/ome/files/tiff/IFD.cpp:1362 | every pixel of every sample plane lies in a tile of the image, of that plane |
| Tiles.TileAtUnique | lib/ome/files/tiff/IFD.cpp:1362 | the tile holding a pixel in a plane is the only one that does |
| Tiles.TileOfPlane | lib/ome/files/tiff/IFD.cpp:331-333 | index i of plane p is a tile of the image, in plane p, at index i |
| Tiles.RegionOfIndex | lib/ome/files/tiff/IFD.cpp:331 | the tile at row r and column c has its origin at (c * width, r * height) |
| IfdDirectory.FillImageWidth | lib/ome/files/tiff/IFD.cpp:940-950 | caching the width never changes what the width getter answers |
| IfdDirectory.FillTileType | lib/ome/files/tiff/IFD.cpp:888-907 | caching the tile type never changes what the tile type getter answers |
| IfdDirectory.FillBits | lib/ome/files/tiff/IFD.cpp:1189-1198 | caching the bits never changes what the bits getter answers |
| IfdDirectory.FillPixelType | lib/ome/files/tiff/IFD.cpp:1046-1143 | what `getPixelType` caches never changes its answer |
| IfdDirectory.Directory.constructor | lib/ome/files/tiff/IFD.cpp:653-667 | a directory opened on a file holds its tags and has nothing cached |
| IfdDirectory.WriteCache.constructor | lib/ome/files/tiff/IFD.cpp:657-658 | the coverage list and the tile cache start empty, and nothing is written |
| Tiles.TileInfo.TileRegionIn | lib/ome/files/tiff/IFD.cpp:543-545 | the clip of a region to a tile lies in both, or is empty |
| TileCoverage.TileCoverage.constructor | lib/ome/files/TileCoverage.cpp:125-128 | a new coverage holds no regions |
| Codecs.CodecRegistry.constructor | lib/ome/files/tiff/Codec.cpp:58-62 | the static tables start empty; the codec list libtiff reports is taken as given |
| MinimalTiff.SetupZeroWidth | lib/ome/files/out/MinimalTIFFWriter.cpp:236-247 | a zero width fails once the width and height are recorded, and nothing else is set |
| MinimalTiff.SetupGeometry | lib/ome/files/out/MinimalTIFFWriter.cpp:240-265 | widths below 2048 get full-width strips of 65536 / width rows (at least one), wider images 256 x 256 tiles |
| MinimalTiff.StripRowsBounds | lib/ome/files/out/MinimalTIFFWriter.cpp:254-257 | for widths below 2048 a strip holds at least 32 rows, never more than 64 KiB and less than one row short of it |
| MinimalTiff.SetupDescription | lib/ome/files/out/MinimalTIFFWriter.cpp:267-292 | the frame's pixel type, its significant bits (which decode back to that type), its samples, contiguous planes exactly when interleaved is set true, RGB exactly for a three-sample RGB channel, and the named codec's scheme or the compression left as it was |
| MinimalTiff.IfdIndex | lib/ome/files/out/MinimalTIFFWriter.cpp:306-307 | a series and plane have a directory exactly when the series is in the table and the plane inside its range, and it is the range start plus the plane |
| MinimalTiff.RangesAsWritten | lib/ome/files/out/MinimalTIFFWriter.cpp:153-168 | as written every series gets the plane count of the current series: series i covers i * count to (i + 1) * count |
| MinimalTiff.RangesAsWrittenMisplaces | lib/ome/files/out/MinimalTIFFWriter.cpp:153-168 | for series of 2 and 3 planes the table as written differs from the intended one, and plane 2 of series 1 has no directory although its directory is 4 |
| MinimalTiff.RangesAsWrittenUniform | lib/ome/files/out/MinimalTIFFWriter.cpp:153-168 | when every series has the same plane count the table as written is the intended one |
| MinimalTiff.Ranges | lib/ome/files/out/MinimalTIFFWriter.cpp:153-168 | one range per series |
| MinimalTiff.RangesContiguous | lib/ome/files/out/MinimalTIFFWriter.cpp:153-168 | the first series starts at directory 0, each starts where the previous one ended, and each range holds its series' plane count |
| MinimalTiff.IfdIndexDense | lib/ome/files/out/MinimalTIFFWriter.cpp:153-168 | every plane of every series has a directory below the total plane count, and no two planes share one |
| MinimalTiff.InStepAdvances | lib/ome/files/out/MinimalTIFFWriter.cpp:199-231 | the next plane, or the first plane of the next series, has the next directory |
| MinimalTiff.PlaneCounts | lib/ome/files/out/MinimalTIFFWriter.cpp:158-160 | the plane count of each series, in order |
| MinimalTiff.BuildRanges | lib/ome/files/out/MinimalTIFFWriter.cpp:153-168 | the loop builds the intended range table |
| MinimalTiff.Writer.constructor | lib/ome/files/out/MinimalTIFFWriter.cpp:100-109 | a writer that is not open, on series 0 plane 0, with no directory, range table or BigTIFF choice |
| MinimalTiff.Writer.CurrentFrame | lib/ome/files/out/MinimalTIFFWriter.cpp:267-273 | the current frame exists exactly when the series and the plane do |
| MinimalTiff.Writer.SetupCurrent | lib/ome/files/out/MinimalTIFFWriter.cpp:233-292 | the directory becomes `setupIFD`'s settings for the current frame and nothing else changes; a series without planes is an error |
| MinimalTiff.Writer.NextIfd | lib/ome/files/out/MinimalTIFFWriter.cpp:225-231 | the current directory is written, a blank one started, and the index goes up by one |
| MinimalTiff.Writer.SetId | lib/ome/files/out/MinimalTIFFWriter.cpp:133-168 | opens on series 0 plane 0 with the directory set up for that frame; on success appends the intended range table of Findings row 3, each series with its own plane count, where the source gives every series the current series' count; after it the table and the directory index agree |
| MinimalTiff.Writer.Close | lib/ome/files/out/MinimalTIFFWriter.cpp:171-197 | an open file has its last directory written; afterwards the writer is closed with index 0, no range table and no BigTIFF choice |
| MinimalTiff.Writer.SetSeries | lib/ome/files/out/MinimalTIFFWriter.cpp:199-210 | a closed writer or an unknown series fails and changes nothing; the same series changes nothing; another series goes to its plane 0, writes the directory and sets up a new one; moving on from the last plane of a series keeps the index in step with the table |
| MinimalTiff.Writer.SetPlane | lib/ome/files/out/MinimalTIFFWriter.cpp:212-223 | the same for planes within the current series |
| MinimalTiff.Writer.SaveBytes | lib/ome/files/out/MinimalTIFFWriter.cpp:294-317 | a closed writer fails and changes nothing; success means the directory index is the one the table assigns to the plane; writing the next plane in sequence succeeds |
| MinimalTiff.Writer.SetBigTiff | lib/ome/files/out/MinimalTIFFWriter.cpp:319-323 | records the choice and nothing else |
| MinimalTiff.Writer.GetBigTiff | lib/ome/files/out/MinimalTIFFWriter.cpp:325-329 | the value last set |
| MetadataList.Sizes | lib/ome/files/MetadataList.h:65-73 | one size per secondary list, in order, each the length of that list |
| MetadataList.SizesEmpty | test/ome-files/metadatalist.cpp:140 | the empty list has no sizes |
| MetadataList.SizesAppend | test/ome-files/metadatalist.cpp:116-135 | appending a secondary list appends its length, so a list built by appending has the sizes of the list built at once |
| MetadataList.SizesConcat | lib/ome/files/MetadataList.h:65-73 | the sizes of a concatenation are the concatenation of the sizes |
| MetadataList.SizesExample | test/ome-files/metadatalist.cpp:148 | the lists {0,1,2}, {3}, {4,5}, {6,7,8} have sizes 3, 1, 2, 3 |
| CoreMetadataList.LargerCovers | lib/ome/files/CoreMetadataList.h:71-74 | the comparator says "before" exactly when the other resolution does not cover this one; between comparable resolutions it means covering and is asymmetric |
| CoreMetadataList.ComparablePermutation | lib/ome/files/CoreMetadataList.h:70-74 | reordering keeps a list comparable |
| CoreMetadataList.InsertStep | lib/ome/files/CoreMetadataList.h:70-74 | one exchange of the insertion keeps its invariant |
| CoreMetadataList.InsertDone | lib/ome/files/CoreMetadataList.h:70-74 | the insertion ends with a sorted prefix |
| CoreMetadataList.InsertAt | lib/ome/files/CoreMetadataList.h:70-74 | moves one element into a sorted prefix: a permutation, the rest untouched, the prefix sorted when the list is comparable |
| CoreMetadataList.Swap | lib/ome/files/CoreMetadataList.h:70-74 | exchanges two neighbours, a permutation |
| CoreMetadataList.SortResolutions | lib/ome/files/CoreMetadataList.h:70-74 | `std::sort` of one series: a permutation, and sorted largest first when its resolutions are comparable |
| CoreMetadataList.OrderResolutions | lib/ome/files/CoreMetadataList.h:65-76 | every series becomes a permutation of itself, sorted largest first when its resolutions are comparable |
| CoreMetadataList.HeadCovers | lib/ome/files/CoreMetadataList.h:71-74 | the first of a sorted list covers all of it |
| CoreMetadataList.SortedTail | lib/ome/files/CoreMetadataList.h:71-74 | the tail of a sorted list is sorted |
| CoreMetadataList.SameHead | lib/ome/files/CoreMetadataList.h:71-74 | two sorted permutations of distinguishable resolutions start alike |
| CoreMetadataList.TailPermutation | lib/ome/files/CoreMetadataList.h:71-74 | dropping a shared first element keeps a permutation |
| CoreMetadataList.DistinguishableTail | lib/ome/files/CoreMetadataList.h:71-74 | the tail of a distinguishable list is distinguishable |
| CoreMetadataList.SortedUnique | lib/ome/files/CoreMetadataList.h:65-76 | the sorted order of distinguishable resolutions is unique, so the sort's result does not depend on how it sorts |
| CoreMetadataList.SortedComparable | lib/ome/files/CoreMetadataList.h:71-74 | a sorted list is comparable |
| CoreMetadataList.ExampleSortedIsSorted | test/ome-files/coremetadatalist.cpp:183-185 | the expected order 1, 0, 3, 4, 2 is sorted |
| CoreMetadataList.ExamplePermutation | test/ome-files/coremetadatalist.cpp:183-185 | the expected order is a permutation of the series |
| CoreMetadataList.ExampleComparable | test/ome-files/coremetadatalist.cpp:183-185 | the series' resolutions are comparable |
| CoreMetadataList.ExampleDistinguishable | test/ome-files/coremetadatalist.cpp:183-185 | the series' resolutions are distinguishable |
| CoreMetadataList.ExampleOrder | test/ome-files/coremetadatalist.cpp:183-185 | every sorted permutation of the series is the order 1, 0, 3, 4, 2 the test expects |
| Fractal.SumBetween | docs/sphinx/examples/fractal.cpp:140-145 | n samples sum to between n times the least and n times the greatest |
| Fractal.SumFits | docs/sphinx/examples/fractal.cpp:137-145 | for at most 257 samples the 16-bit accumulator does not wrap |
| Fractal.RoundedMean | docs/sphinx/examples/fractal.cpp:146-148 | the result is within half a step of the mean |
| Fractal.MeanBetween | docs/sphinx/examples/fractal.cpp:146-148 | a rounded mean of values between two bounds is between them |
| Fractal.RoundedMeanBetween | docs/sphinx/examples/fractal.cpp:146-148 | the rounded mean of the samples of a channel lies between the least and greatest sample |
| Fractal.RoundUpAsWritten | docs/sphinx/examples/fractal.cpp:146-148 | as written: the quotient, or one more |
| Fractal.RoundUpEvenAgrees | docs/sphinx/examples/fractal.cpp:146-148 | for an even count, such as the 16 samples the program blends, the rounding as written is the rounded mean |
| Fractal.RoundUpOddCounterexample | docs/sphinx/examples/fractal.cpp:146-148 | for one sample 7 the rounding as written gives 8, and for the three samples 1, 0, 0 it gives 1 rather than 0 |
| Fractal.Channel | docs/sphinx/examples/fractal.cpp:146-148 | the accumulator's mean rounded half up, the corrected rule of Findings row 4, cut to 8 bits; the source rounds up when the remainder is at least S / 2 |
| Fractal.Accumulate | docs/sphinx/examples/fractal.cpp:140-145 | the channel's sum modulo 65536 |
| Fractal.BlendIsRoundedMean | docs/sphinx/examples/fractal.cpp:133-152 | for up to 257 samples each channel of the blend is the rounded mean of that channel, between the least and greatest sample |
| Fractal.BlendAt | docs/sphinx/examples/fractal.cpp:133-152 | a channel of the blend is the rounded mean of the 16-bit sum, cut to 8 bits |
| Fractal.BlendSamples | docs/sphinx/examples/fractal.cpp:133-152 | computes the blend channel by channel with the corrected rounding of Findings row 4 |
| Fractal.RgbTile.constructor | docs/sphinx/examples/fractal.cpp:455-458 | a tile buffer of x by y pixels, one plane and three samples, all zero |
| Fractal.RgbTile.SetPixel | docs/sphinx/examples/fractal.cpp:75-91 | the three samples of (x, y) take the value and no other element changes |
| Fractal.TileCount | docs/sphinx/examples/fractal.cpp:395-400 | the fewest tiles covering the image along the axis |
| Fractal.CeilDivIsCount | docs/sphinx/examples/fractal.cpp:395-400 | the quotient plus one for a remainder is the ceiling quotient |
| Fractal.ThreadsAsWritten | docs/sphinx/examples/fractal.cpp:405-406 | no more threads than the hardware offers or there are tiles |
| Fractal.ThreadsAsWrittenNone | docs/sphinx/examples/fractal.cpp:405-406 | a hardware count of 0 gives no thread and thus no work list for a tile to go in |
| Fractal.Threads | docs/sphinx/examples/fractal.cpp:405-406 | between 1 and the tile count when there are tiles, none when there are none, and the written count whenever the hardware reports one |
| Fractal.DealWork | docs/sphinx/examples/fractal.cpp:395-435 | one work list per thread, and every tile dealt out in order to list item mod threads |
| Fractal.Deal | docs/sphinx/examples/fractal.cpp:430-433 | one step of the loop keeps the dealing invariant |
| Fractal.ShareStep | docs/sphinx/examples/fractal.cpp:430 | dealing item k adds one to list k mod n and nothing to the others |
| Fractal.ShareBalanced | docs/sphinx/examples/fractal.cpp:422-435 | the lists' shares differ by at most one, the earlier lists taking the extra items |
| Fractal.ShareHolds | docs/sphinx/examples/fractal.cpp:430 | every dealt item has its place in its list |
| Fractal.SharePlace | docs/sphinx/examples/fractal.cpp:430 | every place of every list holds a dealt item, and the item's place is that one |
| Fractal.ItemOfInjective | docs/sphinx/examples/fractal.cpp:426-429 | distinct item numbers are distinct tiles |
| Fractal.ItemOfTile | docs/sphinx/examples/fractal.cpp:426-429 | tile (x, y) is item x * down + y |
| Fractal.DealtAt | docs/sphinx/examples/fractal.cpp:430-433 | item k is at place k div n of list k mod n |
| Fractal.DealtEveryTile | docs/sphinx/examples/fractal.cpp:426-433 | every tile of the image is in a work list, at the place of its item number |
| Fractal.DealtOnlyTiles | docs/sphinx/examples/fractal.cpp:426-433 | every entry of the work lists is a tile of the image and no tile is in two places |
| Fractal.ItemInImage | docs/sphinx/examples/fractal.cpp:426-429 | an item number below the tile count is a tile of the image |
| Fractal.DealtBalanced | docs/sphinx/examples/fractal.cpp:422-435 | the work lists differ in length by at most one, the earlier lists being the longer |

## Left out

- Every call into libtiff is left out: reading and writing encoded tiles and strips, setting directories, and getting and setting fields, together with `Sentry` and all of `tiff/TIFF.cpp`. The tag map of `IfdDirectory` stands for the fields of the open directory. A written directory is recorded as a list entry.
- `transferRGBA` (IFD.cpp 237-288) is left out; none of the modelled visitors calls it.
- The Python binding (`python/src/ome_files.cpp`) and `python/setup.py` are a CPython wrapper and a build descriptor.
- The floating-point parts of the fractal example are left out: `scale`, `make_c`, `render_fractal`, `lookup_colour` and `create_lut`. So are the unit conversions and the test-only conversion visitors.
- The threads and the mutex of `write_fractal` are left out. Only the partition of tiles into work lists is modelled.
- The metadata example programs and `MetadataTools` are left out: they drive the OME-XML API, which is not part of this model.
- The Boost R-tree's internal structure is left out (see above).
- The size computation of `enableBigTIFF` is not part of this model, and neither are the file flags passed to `TIFF::open`. `setId` leaves the BigTIFF choice as it was.
- The `saveBytes` mismatch message is modelled without the two numbers it formats.
- The photometric, compression and sub-IFD getters of `IFD` are left out; the writer records the photometric interpretation and the compression it sets.
- The contents of cached tile buffers are not tracked by `IfdDirectory.WriteCache`. It records which tiles are cached and which are written; the sample-level contents are the business of the `Ifd` transfer methods.
- Buffer strides and `index_bases` are left out: the offsets are those of the all-ascending orders the library builds.
- `CoreMetadataList.OrderResolutions`: states sortedness only for series whose resolutions are comparable component by component. Otherwise the comparator is not a strict weak ordering and `std::sort`'s result is unspecified.
- `CoreMetadataList.OrderResolutions`: the number of series and the length of each series are unchanged because arrays keep their length and the list of arrays is not modified; no separate ensures states it.
- `MinimalTiff.Writer.SaveBytes`: the pixel data it hands to `IFD::writeImage` is not modelled there. The checks of `writeImage` are `Ifd.WriteImageCheck`, and the sample transfer is `Ifd.WriteTransfer` and `Ifd.PackTile`.
- `Ifd.ExpectedReadFor`: models the intended behaviour of Findings row 1. For BIT it expects every row padded to whole bytes; the source expects `(w + 1) * h * samples / 8` bytes when `w` is not a multiple of 8, so the source accepts some strips that the model rejects as short (width 9, height 1, one sample: 1 byte in the source, 2 in the model).
- `Ifd.ReadTransfer`: models the intended behaviour of Findings row 2 through `Ifd.ReadBlock`; the rows branch is as written.
- `Ifd.ReadBlock`: models the intended behaviour of Findings row 2. It copies from the clip's place in the tile; the source copies from element 0 of the tile (`tilebuf.data()`), which differs when the clip starts below the tile's first row.
- `Ifd.WriteTransfer`: models the intended behaviour of Findings row 2 through `Ifd.WriteBlock`; the rows branch is as written.
- `Ifd.WriteBlock`: models the intended behaviour of Findings row 2. It writes at the clip's place in the tile; the source writes from element 0 of the tile, which differs when the clip starts below the tile's first row.
- `MinimalTiff.Writer.SetId`: models the intended behaviour of Findings row 3. It appends `BuildRanges(PlaneCounts(meta))`; the source gives every series the plane count of the current series, which `MinimalTiff.RangesAsWritten` models. The two tables agree when all series have the same plane count (`MinimalTiff.RangesAsWrittenUniform`).
- `Fractal.Channel`: models the intended behaviour of Findings row 4. It rounds up when twice the remainder is at least S; the source rounds up when the remainder is at least S / 2 (`Fractal.RoundUpAsWritten`). The two agree for even S (`Fractal.RoundUpEvenAgrees`), and the program only uses S = 16.
- `Fractal.BlendSamples`: uses `Fractal.Channel`, so it has the intended rounding of Findings row 4, not the as-written rule of fractal.cpp line 147.
- `Fractal.BlendSamples`: the 16-bit accumulator is modelled by reducing modulo 65536, and the 8-bit result by reducing modulo 256. The other fixed-width counters of the source (`dimension_size_type`, `uint32_t`) are unbounded in the model, because no modelled computation comes near their range.

## Findings

| source | as written | input that shows it | evidently intended | confidence | as-written member | corrected member |
|---|---|---|---|---|---|---|
| lib/ome/files/tiff/IFD.cpp:299-313 | the BIT strip check adds 1 to a width that is not a multiple of 8, instead of rounding each row up to whole bytes | width 9, height 1, one sample: the check expects 1 byte, while the row takes 2 | each row of 1-bit samples padded to whole bytes | not executed; the check only lets too-short reads pass | Ifd.ExpectedReadBitShort | Ifd.ExpectedReadBitCorrectedBounds |
| lib/ome/files/tiff/IFD.cpp:154-169 | the block copy of both visitors starts at element 0 of the tile, whatever row of the tile the clip starts at (also 441-458) | a 64-wide strip of 8 rows, region starting at row 4: the clip's data starts at tile element 256, but the copy uses element 0 | the block starts where the clip starts in the tile | not executed | Ifd.FastPathSkipsRowOffset | Ifd.FastPathAgrees |
| lib/ome/files/out/MinimalTIFFWriter.cpp:153-168 | every series' range gets the plane count of the current series (series 0 when `setId` runs) | two series of 2 and 3 planes: plane 2 of series 1 has no directory, though it is directory 4 | each series' range holds its own plane count | not executed | MinimalTiff.RangesAsWrittenMisplaces | MinimalTiff.IfdIndexDense |
| docs/sphinx/examples/fractal.cpp:146-148 | rounds up when the remainder is at least S / 2, which for odd S reaches too low | S = 1, sample 7: the result is 8; S = 3, samples 1, 0, 0: the result is 1, not 0 | the mean rounded to the nearest integer, halves up | not executed; the program only uses S = 16, where both agree | Fractal.RoundUpOddCounterexample | Fractal.BlendIsRoundedMean |
| docs/sphinx/examples/fractal.cpp:405-406 | the thread count is `min(hardware_concurrency(), tiles)`, and `hardware_concurrency()` may return 0; `item % work.size()` (line 430) then divides by zero | hardware concurrency 0 with one tile: no work list | at least one work list whenever there is a tile | not executed | Fractal.ThreadsAsWrittenNone | Fractal.DealWork |
