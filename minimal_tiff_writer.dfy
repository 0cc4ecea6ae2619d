/** The state machine of the minimal TIFF writer
    (lib/ome/files/out/MinimalTIFFWriter.cpp): how a directory is set up
    for the current series and plane, which directory each plane of
    each series goes to, and how the writer moves from one directory to
    the next.

    What the writer reads from its metadata is an input: for each series,
    one `Frame` per plane with the values the base writer's getters
    return while that plane is current. The base writer (not part of
    this model) is taken to reject a series or plane past the end and
    to go back to plane 0 when the series changes. Opening and writing
    the file are left to libtiff; here a written directory is appended
    to `written`. */
module MinimalTiff {
  import opened Wrappers
  import opened PixelProperties
  import opened Ifd
  import opened Arith
  import Codecs

  /** What the base writer reports while a plane is current: the image
      size, pixel type, and the samples and RGB flag of the plane's
      channel. */
  datatype Frame = Frame(sizeX: nat, sizeY: nat, pixelType: PixelType, samples: nat, rgb: bool)

  /** The tags set on the current directory; `None` is a tag not set. */
  datatype IfdSettings = IfdSettings(
    width: Option<nat>, height: Option<nat>,
    tileType: Option<TileType>, tileWidth: Option<nat>, tileHeight: Option<nat>,
    pixelType: Option<PixelType>, bits: Option<nat>, samples: Option<nat>,
    planar: Option<PlanarConfiguration>, photometric: Option<Photometric>,
    compression: Option<Codecs.Scheme>)

  /** A directory nothing has been set on. */
  const Blank := IfdSettings(None, None, None, None, None, None, None, None, None, None, None)

  const ZeroWidth := FormatError("Can't set strip or tile size: SizeX is 0")

  /** The result of `setupIFD`: the directory as it was left, and
      whether it failed. */
  datatype Setup = Setup(ifd: IfdSettings, outcome: Outcome)

  /** Rows per strip: 64 KiB of 8-bit greyscale per strip, at least one row. */
  function StripRows(sizeX: nat): (rows: nat)
    requires sizeX > 0
  {
    var h := 65536 / sizeX;
    if h == 0 then 1 else h
  }

  /** `setupIFD`: sets the image size, then fails on a zero width, and
      otherwise chooses strips below 2048 columns and 256 x 256 tiles
      from there on, records the pixel type with its significant bits,
      the samples of the plane's channel, the planar configuration,
      the photometric interpretation and, when one is chosen, the
      compression scheme of the codec named. */
  function SetupIfd(prev: IfdSettings, f: Frame, interleaved: Option<bool>, compression: Option<string>,
                    codecs: seq<Codecs.Codec>): (s: Setup)
  {
    var sized := prev.(width := Some(f.sizeX), height := Some(f.sizeY));
    if f.sizeX == 0 then Setup(sized, Fail(ZeroWidth))
    else
      var tiled :=
        if f.sizeX < 2048 then sized.(tileType := Some(Strip), tileWidth := Some(f.sizeX), tileHeight := Some(StripRows(f.sizeX)))
        else sized.(tileType := Some(Tile), tileWidth := Some(256), tileHeight := Some(256));
      var typed := tiled.(pixelType := Some(f.pixelType), bits := Some(ClampBits(BitsPerPixel(f.pixelType), f.pixelType)),
                          samples := Some(f.samples));
      var planar := if interleaved == Some(true) then Contig else Separate;
      var photometric := if f.rgb && f.samples == 3 then Rgb else MinIsBlack;
      var described := typed.(planar := Some(planar), photometric := Some(photometric));
      var compressed := if compression.Some? then described.(compression := Some(Codecs.SchemeOf(codecs, compression.value)))
                        else described;
      Setup(compressed, Pass)
  }

  /** A zero width fails once the image size is set; nothing else is. */
  lemma SetupZeroWidth(prev: IfdSettings, f: Frame, interleaved: Option<bool>, compression: Option<string>,
                       codecs: seq<Codecs.Codec>)
    requires f.sizeX == 0
    ensures SetupIfd(prev, f, interleaved, compression, codecs)
         == Setup(prev.(width := Some(0), height := Some(f.sizeY)), Fail(ZeroWidth))
  {
  }

  /** The strip and tile geometry `setupIFD` chooses. */
  lemma SetupGeometry(prev: IfdSettings, f: Frame, interleaved: Option<bool>, compression: Option<string>,
                      codecs: seq<Codecs.Codec>)
    requires f.sizeX > 0
    ensures var s := SetupIfd(prev, f, interleaved, compression, codecs);
      && s.outcome == Pass
      && s.ifd.width == Some(f.sizeX) && s.ifd.height == Some(f.sizeY)
      && (f.sizeX < 2048 ==> s.ifd.tileType == Some(Strip) && s.ifd.tileWidth == Some(f.sizeX)
                             && s.ifd.tileHeight == Some(if 65536 / f.sizeX == 0 then 1 else 65536 / f.sizeX))
      && (f.sizeX >= 2048 ==> s.ifd.tileType == Some(Tile) && s.ifd.tileWidth == Some(256) && s.ifd.tileHeight == Some(256))
  {
  }

  /** Below 2048 columns the quotient is never zero: a strip has at
      least 32 rows and holds at most 64 KiB of 8-bit samples, less
      than one row short of it. */
  lemma StripRowsBounds(sizeX: nat)
    requires 0 < sizeX < 2048
    ensures StripRows(sizeX) == 65536 / sizeX
    ensures StripRows(sizeX) >= 32
    ensures StripRows(sizeX) * sizeX <= 65536 < StripRows(sizeX) * sizeX + sizeX
  {
    var q: nat := 65536 / sizeX;
    var m: nat := 65536 % sizeX;
    var qx: nat := q * sizeX;
    assert qx + m == 65536 && m < sizeX;
    if q < 32 {
      MulLe(q + 1, 32, sizeX);
    }
  }

  /** The tags of the pixel data: the type, its significant bits
      (which decode back to the type), the channel's samples, CONTIG
      exactly when interleaving was asked for, RGB exactly for a
      three-sample RGB channel, and the named codec's scheme. */
  lemma SetupDescription(prev: IfdSettings, f: Frame, interleaved: Option<bool>, compression: Option<string>,
                         codecs: seq<Codecs.Codec>)
    requires f.sizeX > 0
    ensures var s := SetupIfd(prev, f, interleaved, compression, codecs).ifd;
      && s.pixelType == Some(f.pixelType) && s.samples == Some(f.samples)
      && s.bits == Some(SignificantBitsPerPixel(f.pixelType))
      && DecodePixelType(SampleFormatOf(f.pixelType), s.bits.value) == Ok(f.pixelType)
      && (s.planar == Some(Contig) <==> interleaved == Some(true))
      && (s.planar == Some(Separate) <==> interleaved != Some(true))
      && (s.photometric == Some(Rgb) <==> f.rgb && f.samples == 3)
      && (s.photometric == Some(MinIsBlack) <==> !(f.rgb && f.samples == 3))
      && (compression.None? ==> s.compression == prev.compression)
      && (compression.Some? ==> s.compression == Some(Codecs.SchemeOf(codecs, compression.value)))
  {
    PixelTypeRoundTrip(f.pixelType);
  }

  // ---------------------------------------------------------------
  // Which directories belong to which series.

  /** The directories of one series: `begin` up to, not including, `end`. */
  datatype IfdRange = IfdRange(begin: nat, end: nat)

  /** `tiff::ifdIndex` (whose header is not part of this model): the
      directory of a plane of a series, and an error for a series past
      the end or a plane past the series' range. */
  function IfdIndex(ranges: seq<IfdRange>, series: nat, plane: nat): (r: Result<nat>)
    ensures r.Ok? <==> series < |ranges| && ranges[series].begin + plane < ranges[series].end
    ensures r.Ok? ==> r.value == ranges[series].begin + plane
  {
    if series >= |ranges| then Err(LogicError("Invalid series"))
    else if ranges[series].begin + plane >= ranges[series].end then Err(LogicError("Invalid plane"))
    else Ok(ranges[series].begin + plane)
  }

  /** The range table of `setId` as written: every one of `images`
      series gets the plane count of the current series. */
  function RangesAsWritten(images: nat, planeCount: nat): (r: seq<IfdRange>)
    ensures |r| == images
    ensures forall i :: 0 <= i < images ==> r[i] == IfdRange(i * planeCount, i * planeCount + planeCount)
  {
    if images == 0 then []
    else
      var init := RangesAsWritten(images - 1, planeCount);
      var start: nat := (images - 1) * planeCount;
      init + [IfdRange(start, start + planeCount)]
  }

  /** The sum of the plane counts of the series before `n`. */
  function Before(counts: seq<nat>, n: nat): nat
    requires n <= |counts|
  {
    if n == 0 then 0 else Before(counts, n - 1) + counts[n - 1]
  }

  /** The range table with each series' own plane count. */
  function Ranges(counts: seq<nat>): (r: seq<IfdRange>)
    ensures |r| == |counts|
  {
    seq(|counts|, i requires 0 <= i < |counts| => IfdRange(Before(counts, i), Before(counts, i) + counts[i]))
  }

  /** The first series starts at directory 0, each series starts where
      the one before it ended, and each holds its own plane count. */
  lemma RangesContiguous(counts: seq<nat>)
    ensures |Ranges(counts)| > 0 ==> Ranges(counts)[0].begin == 0
    ensures forall i :: 0 <= i < |counts| ==> Ranges(counts)[i].end - Ranges(counts)[i].begin == counts[i]
    ensures forall i :: 0 < i < |counts| ==> Ranges(counts)[i].begin == Ranges(counts)[i - 1].end
  {
  }

  /** Every plane of every series has a directory of its own: the
      directories are numbered densely from 0 in series order, and
      two different planes never share one. */
  lemma {:induction false} IfdIndexDense(counts: seq<nat>, s: nat, p: nat, s2: nat, p2: nat)
    requires s < |counts| && p < counts[s] && s2 < |counts| && p2 < counts[s2]
    ensures IfdIndex(Ranges(counts), s, p) == Ok(Before(counts, s) + p)
    ensures Before(counts, s) + p < Before(counts, |counts|)
    ensures IfdIndex(Ranges(counts), s, p) == IfdIndex(Ranges(counts), s2, p2) ==> s == s2 && p == p2
  {
    BeforeGrows(counts, s + 1, |counts|);
    if s < s2 {
      BeforeGrows(counts, s + 1, s2);
    } else if s2 < s {
      BeforeGrows(counts, s2 + 1, s);
    }
  }

  lemma {:induction false} BeforeGrows(counts: seq<nat>, m: nat, n: nat)
    requires m <= n <= |counts|
    ensures Before(counts, m) <= Before(counts, n)
  {
    if m < n {
      BeforeGrows(counts, m, n - 1);
    }
  }

  /** With series of different plane counts the table as written
      misplaces the later series: for counts 2 and 3, the last plane
      of the second series has no directory. */
  lemma RangesAsWrittenMisplaces()
    ensures RangesAsWritten(2, 2) != Ranges([2, 3])
    ensures IfdIndex(RangesAsWritten(2, 2), 1, 2).Err?
    ensures IfdIndex(Ranges([2, 3]), 1, 2) == Ok(4)
  {
    assert RangesAsWritten(2, 2)[1] == IfdRange(2, 4);
    assert Before([2, 3], 1) == 2;
  }

  /** When every series has the same plane count the two tables agree. */
  lemma {:induction false} RangesAsWrittenUniform(counts: seq<nat>, c: nat)
    requires forall i :: 0 <= i < |counts| ==> counts[i] == c
    ensures RangesAsWritten(|counts|, c) == Ranges(counts)
  {
    forall i | 0 <= i <= |counts| ensures Before(counts, i) == i * c {
      BeforeUniform(counts, c, i);
    }
  }

  lemma {:induction false} BeforeUniform(counts: seq<nat>, c: nat, n: nat)
    requires n <= |counts| && forall i :: 0 <= i < |counts| ==> counts[i] == c
    ensures Before(counts, n) == n * c
  {
    if n > 0 {
      BeforeUniform(counts, c, n - 1);
      assert n * c == (n - 1) * c + c;
    }
  }

  /** The plane counts of the series. */
  function PlaneCounts(meta: seq<seq<Frame>>): (r: seq<nat>)
    ensures |r| == |meta| && forall i :: 0 <= i < |meta| ==> r[i] == |meta[i]|
  {
    seq(|meta|, i requires 0 <= i < |meta| => |meta[i]|)
  }

  /** The loop of `setId`: one range per series, each starting where
      the previous one ended. */
  method BuildRanges(counts: seq<nat>) returns (ranges: seq<IfdRange>)
    ensures ranges == Ranges(counts)
  {
    ranges := [];
    var currentIfd := 0;
    var i := 0;
    while i < |counts|
      invariant 0 <= i <= |counts| && |ranges| == i && currentIfd == Before(counts, i)
      invariant forall j :: 0 <= j < i ==> ranges[j] == Ranges(counts)[j]
    {
      ranges := ranges + [IfdRange(currentIfd, currentIfd + counts[i])];
      currentIfd := currentIfd + counts[i];
      i := i + 1;
    }
  }

  // ---------------------------------------------------------------
  // The writer.

  class Writer {
    /** Per series, the frame of each plane. */
    var meta: seq<seq<Frame>>
    var interleaved: Option<bool>
    var compression: Option<string>
    /** The codecs libtiff is configured with. */
    var codecs: seq<Codecs.Codec>

    /** Whether a file is open (`tiff` is set). */
    var isOpen: bool
    var series: nat
    var plane: nat
    /** The directory being filled. */
    var ifd: IfdSettings
    /** The index of that directory in the file. */
    var ifdIndex: nat
    var seriesIfdRange: seq<IfdRange>
    var bigTiff: Option<bool>
    /** The directories written so far, in file order. */
    var written: seq<IfdSettings>

    /** The current frame, when the series and plane exist. */
    function CurrentFrame(): (f: Option<Frame>)
      reads this
      ensures f.Some? <==> series < |meta| && plane < |meta[series]|
    {
      if series < |meta| && plane < |meta[series]| then Some(meta[series][plane]) else None
    }

    constructor(m: seq<seq<Frame>>, i: Option<bool>, c: Option<string>, cs: seq<Codecs.Codec>)
      ensures meta == m && interleaved == i && compression == c && codecs == cs
      ensures !isOpen && series == 0 && plane == 0 && ifd == Blank && ifdIndex == 0
      ensures seriesIfdRange == [] && bigTiff == None && written == []
    {
      meta, interleaved, compression, codecs := m, i, c, cs;
      isOpen, series, plane, ifd, ifdIndex := false, 0, 0, Blank, 0;
      seriesIfdRange, bigTiff, written := [], None, [];
    }

    /** `setupIFD` on the current directory. A series without planes
        has no frame to describe; that is reported as an error. */
    method SetupCurrent() returns (r: Outcome)
      modifies this
      ensures CurrentFrame() == old(CurrentFrame())
      ensures old(CurrentFrame()).None? ==> r.Fail? && ifd == old(ifd)
      ensures old(CurrentFrame()).Some? ==>
        var s := SetupIfd(old(ifd), old(CurrentFrame()).value, interleaved, compression, codecs);
        ifd == s.ifd && r == s.outcome
      ensures meta == old(meta) && series == old(series) && plane == old(plane) && isOpen == old(isOpen)
      ensures ifdIndex == old(ifdIndex) && seriesIfdRange == old(seriesIfdRange) && written == old(written)
      ensures bigTiff == old(bigTiff) && interleaved == old(interleaved) && compression == old(compression)
      ensures codecs == old(codecs)
    {
      var f := CurrentFrame();
      if f.None? {
        return Fail(LogicError("Invalid plane"));
      }
      var s := SetupIfd(ifd, f.value, interleaved, compression, codecs);
      ifd := s.ifd;
      r := s.outcome;
    }

    /** `nextIFD`: writes the current directory, starts a blank one and
        counts it. */
    method NextIfd()
      modifies this
      ensures written == old(written) + [old(ifd)] && ifd == Blank && ifdIndex == old(ifdIndex) + 1
      ensures meta == old(meta) && series == old(series) && plane == old(plane) && isOpen == old(isOpen)
      ensures seriesIfdRange == old(seriesIfdRange) && bigTiff == old(bigTiff)
      ensures interleaved == old(interleaved) && compression == old(compression) && codecs == old(codecs)
    {
      written := written + [ifd];
      ifd := Blank;
      ifdIndex := ifdIndex + 1;
    }

    /** `setId`: opens the file on directory 0 of series 0, sets it up,
        and builds the range table. */
    method SetId() returns (r: Outcome)
      requires !isOpen
      modifies this
      ensures isOpen && series == 0 && plane == 0 && ifdIndex == old(ifdIndex) && written == old(written)
      ensures CurrentFrame().Some? ==>
        var s := SetupIfd(Blank, CurrentFrame().value, interleaved, compression, codecs);
        ifd == s.ifd && r == s.outcome
      ensures r.Pass? ==> seriesIfdRange == old(seriesIfdRange) + Ranges(PlaneCounts(meta))
      ensures r.Fail? ==> seriesIfdRange == old(seriesIfdRange)
      ensures r.Pass? && old(ifdIndex) == 0 && old(seriesIfdRange) == [] ==> Consistent() && InStep()
      ensures meta == old(meta) && bigTiff == old(bigTiff)
      ensures interleaved == old(interleaved) && compression == old(compression) && codecs == old(codecs)
    {
      isOpen, series, plane, ifd := true, 0, 0, Blank;
      r := SetupCurrent();
      if r.Fail? {
        return;
      }
      var ranges := BuildRanges(PlaneCounts(meta));
      seriesIfdRange := seriesIfdRange + ranges;
    }

    /** `close`: writes the last directory if a file is open, then
        forgets the file, the directory count, the range table and the
        BigTIFF choice. */
    method Close()
      modifies this
      ensures !isOpen && ifdIndex == 0 && seriesIfdRange == [] && bigTiff == None && ifd == Blank
      ensures old(isOpen) ==> written == old(written) + [old(ifd)]
      ensures !old(isOpen) ==> written == old(written)
      ensures meta == old(meta) && series == old(series) && plane == old(plane)
    {
      if isOpen {
        NextIfd();
      }
      ifd := Blank;
      isOpen := false;
      ifdIndex := 0;
      seriesIfdRange := [];
      bigTiff := None;
    }

    /** The range table is the one built from the plane counts. */
    ghost predicate Consistent()
      reads this
    {
      seriesIfdRange == Ranges(PlaneCounts(meta))
    }

    /** The directory being filled is the one the range table assigns
        to the current plane. */
    ghost predicate InStep()
      reads this
    {
      IfdIndex(seriesIfdRange, series, plane) == Ok(ifdIndex)
    }

    /** `setSeries`: without an open file, or for a series past the end,
        nothing changes; otherwise the series becomes current at plane 0,
        and moving to another series writes the current directory and
        sets up the next one. Moving on from the last plane of a series
        to the next series keeps the directory in step. */
    method SetSeries(s: nat) returns (r: Outcome)
      modifies this
      ensures !old(isOpen) || s >= |meta| ==>
        r.Fail? && series == old(series) && plane == old(plane) && ifdIndex == old(ifdIndex) && written == old(written)
      ensures old(isOpen) && s < |meta| ==> series == s && plane == 0
      ensures old(isOpen) && s < |meta| && s == old(series) ==>
        r.Pass? && ifdIndex == old(ifdIndex) && written == old(written) && ifd == old(ifd)
      ensures old(isOpen) && s < |meta| && s != old(series) ==>
        ifdIndex == old(ifdIndex) + 1 && written == old(written) + [old(ifd)]
      ensures old(isOpen) && s < |meta| && s != old(series) && CurrentFrame().Some? ==>
        var st := SetupIfd(Blank, CurrentFrame().value, interleaved, compression, codecs);
        ifd == st.ifd && r == st.outcome
      ensures old(InStep()) && Consistent() && s == old(series) + 1 && old(series) < |meta| && old(plane) + 1 == |meta[old(series)]|
              && r.Pass? ==>
        InStep()
      ensures meta == old(meta) && isOpen == old(isOpen) && seriesIfdRange == old(seriesIfdRange)
      ensures interleaved == old(interleaved) && compression == old(compression) && codecs == old(codecs)
    {
      if !isOpen {
        return Fail(FormatError("No file is open"));
      }
      if s >= |meta| {
        return Fail(LogicError("Invalid series"));
      }
      ghost var before := series;
      ghost var last := plane;
      var current := series;
      series, plane := s, 0;
      if current != s {
        NextIfd();
        r := SetupCurrent();
        if InStepAt(before, last) && Consistent() && s == before + 1 && last + 1 == |meta[before]| && r.Pass? {
          InStepAdvances(PlaneCounts(meta), before, last, ifdIndex - 1);
        }
      } else {
        r := Pass;
      }
    }

    /** `InStep` for another series and plane. */
    ghost predicate InStepAt(s: nat, p: nat)
      reads this
    {
      ifdIndex > 0 && IfdIndex(seriesIfdRange, s, p) == Ok(ifdIndex - 1)
    }

    /** `setPlane`: without an open file, or for a plane past the end of
        the series, nothing changes; moving to another plane writes the
        current directory and sets up the next one; the same plane
        changes nothing. Moving on to the next plane keeps the directory
        in step. */
    method SetPlane(p: nat) returns (r: Outcome)
      modifies this
      ensures !old(isOpen) || series >= |meta| || p >= |meta[series]| ==>
        r.Fail? && plane == old(plane) && ifdIndex == old(ifdIndex) && written == old(written) && ifd == old(ifd)
      ensures old(isOpen) && series < |meta| && p < |meta[series]| ==> plane == p
      ensures old(isOpen) && series < |meta| && p < |meta[series]| && p == old(plane) ==>
        r.Pass? && ifdIndex == old(ifdIndex) && written == old(written) && ifd == old(ifd)
      ensures old(isOpen) && series < |meta| && p < |meta[series]| && p != old(plane) ==>
        ifdIndex == old(ifdIndex) + 1 && written == old(written) + [old(ifd)]
        && ifd == SetupIfd(Blank, meta[series][p], interleaved, compression, codecs).ifd
        && r == SetupIfd(Blank, meta[series][p], interleaved, compression, codecs).outcome
      ensures old(InStep()) && Consistent() && p == old(plane) + 1 && r.Pass? ==> InStep()
      ensures meta == old(meta) && series == old(series) && isOpen == old(isOpen) && seriesIfdRange == old(seriesIfdRange)
      ensures interleaved == old(interleaved) && compression == old(compression) && codecs == old(codecs)
    {
      if !isOpen {
        return Fail(FormatError("No file is open"));
      }
      if series >= |meta| || p >= |meta[series]| {
        return Fail(LogicError("Invalid plane"));
      }
      ghost var last := plane;
      var current := plane;
      plane := p;
      if current != p {
        NextIfd();
        r := SetupCurrent();
        if InStepAt(series, last) && Consistent() && p == last + 1 {
          InStepAdvances(PlaneCounts(meta), series, last, ifdIndex - 1);
        }
      } else {
        r := Pass;
      }
    }

    /** `saveBytes`: without an open file nothing changes; otherwise it
        moves to the plane, then refuses to write unless the directory
        being filled is the one the range table assigns to it. The pixel
        data itself is written by `IFD::writeImage`. */
    method SaveBytes(p: nat) returns (r: Outcome)
      modifies this
      ensures !old(isOpen) ==> r.Fail? && unchanged(this)
      ensures old(isOpen) && r.Pass? ==> InStep() && plane == p
      ensures old(isOpen) && series < |meta| && p < |meta[series]| && p == old(plane) ==>
        (r.Pass? <==> old(InStep()))
      ensures (old(isOpen) && old(InStep()) && Consistent() && p == old(plane) + 1 && series < |meta| && p < |meta[series]|
               && SetupIfd(Blank, meta[series][p], interleaved, compression, codecs).outcome.Pass?) ==> r.Pass?
      ensures meta == old(meta) && series == old(series) && seriesIfdRange == old(seriesIfdRange)
    {
      if !isOpen {
        return Fail(FormatError("No file is open"));
      }
      r := SetPlane(p);
      if r.Fail? {
        return;
      }
      var expected := IfdIndex(seriesIfdRange, series, p);
      if expected.Err? {
        return Fail(expected.error);
      }
      if ifdIndex != expected.value {
        return Fail(FormatError("IFD index mismatch"));
      }
    }

    /** `setBigTIFF`. */
    method SetBigTiff(big: Option<bool>)
      modifies this
      ensures bigTiff == big
      ensures meta == old(meta) && isOpen == old(isOpen) && series == old(series) && plane == old(plane)
      ensures ifd == old(ifd) && ifdIndex == old(ifdIndex) && seriesIfdRange == old(seriesIfdRange)
      ensures written == old(written)
    {
      bigTiff := big;
    }

    /** `getBigTIFF`: the value last set, `None` once the writer is
        closed. */
    function GetBigTiff(): (r: Option<bool>)
      reads this
      ensures r == bigTiff
    {
      bigTiff
    }
  }

  /** Writing planes in order keeps the directory count in step with
      the range table: the next plane of a series, and the first plane
      of the next series after the last plane of one, both land on the
      next directory. */
  lemma InStepAdvances(counts: seq<nat>, s: nat, p: nat, i: nat)
    requires s < |counts| && p < counts[s] && IfdIndex(Ranges(counts), s, p) == Ok(i)
    ensures p + 1 < counts[s] ==> IfdIndex(Ranges(counts), s, p + 1) == Ok(i + 1)
    ensures p + 1 == counts[s] && s + 1 < |counts| && counts[s + 1] > 0 ==>
      IfdIndex(Ranges(counts), s + 1, 0) == Ok(i + 1)
  {
  }
}
