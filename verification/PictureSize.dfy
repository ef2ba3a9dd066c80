/**
 What the layout functions compute when 32 bits are enough, exactly when they are, and that the
 picture then fits (compat/kernel-headers/include/display/media/mmm_color_fmt.h).
 */
module PictureSize {
  import opened Alignment
  import opened ColorFormat

  // ------------------------------------------------------------------------
  // The layout in unbounded arithmetic
  // ------------------------------------------------------------------------

  /** The next multiple of `a`. */
  function Ceil(x: nat, a: nat): nat
    requires a > 0
  {
    (x + a - 1) / a * a
  }

  /** How many tiles of size `r` cover `x`. */
  function Tiles(x: nat, r: nat): nat
    requires r > 0
  {
    (x + r - 1) / r
  }

  function Pages(x: nat): nat {
    Ceil(x, PAGE)
  }

  function Bytes(stride: nat, lines: nat): nat {
    stride * lines
  }

  predicate HasChroma(f: Format) {
    match f
    case Nv12 | Nv21 | Nv12Block512 | Nv12Ubwc | Nv12Bpp10Ubwc | P010 | P010Block512 | P010Ubwc => true
    case _ => false
  }

  predicate IsCompressedYuv(f: Format) {
    f == Nv12Ubwc || f == Nv12Bpp10Ubwc || f == P010Ubwc
  }

  predicate IsCompressedRgb(f: Format) {
    f == Rgba8888Ubwc || f == Rgba1010102Ubwc || f == Rgb565Ubwc || f == Rgba16161616FUbwc
  }

  function Stride(f: Format, width: nat): nat {
    match f
    case Nv12Block512 => Ceil(width, 512)
    case Nv12 | Nv21 | Nv12Ubwc => Ceil(width, 128)
    case Nv12Bpp10Ubwc => Ceil(Ceil(width, 192) * 4 / 3, 256)
    case P010Ubwc | P010 | Rgb565Ubwc => Ceil(width * 2, 256)
    case P010Block512 => Ceil(width * 2, 512)
    case Rgba8888 | Rgba8888Ubwc | Rgba1010102Ubwc => Ceil(width * 4, 256)
    case Rgba16161616FUbwc => Ceil(width * 8, 256)
    case Unknown => 0
  }

  function Lines(f: Format, height: nat): nat {
    match f
    case Nv12Block512 => Ceil(height, 512)
    case Nv12 | Nv21 | Nv12Ubwc | P010Block512 | P010 | Rgba8888 => Ceil(height, 32)
    case Nv12Bpp10Ubwc | P010Ubwc | Rgba8888Ubwc | Rgba1010102Ubwc | Rgb565Ubwc | Rgba16161616FUbwc => Ceil(height, 16)
    case Unknown => 0
  }

  function ChromaLines(f: Format, height: nat): nat
    requires HasChroma(f)
  {
    Ceil((height + 1) / 2, if f == Nv12Block512 then 256 else if f == Nv12Ubwc then 32 else 16)
  }

  function MetaStride(f: Format, width: nat): nat
    requires IsCompressedYuv(f) || IsCompressedRgb(f)
  {
    Ceil(Tiles(width, if f == Nv12Bpp10Ubwc then 48 else if IsCompressedYuv(f) then 32
                      else if f == Rgba16161616FUbwc then 8 else 16), 64)
  }

  function MetaLines(f: Format, height: nat): nat
    requires IsCompressedYuv(f) || IsCompressedRgb(f)
  {
    Ceil(Tiles(height, if f == Nv12Ubwc then 8 else 4), 16)
  }

  function ChromaMetaStride(f: Format, width: nat): nat
    requires IsCompressedYuv(f)
  {
    Ceil(Tiles((width + 1) / 2, if f == Nv12Bpp10Ubwc then 24 else 16), 64)
  }

  function ChromaMetaLines(f: Format, height: nat): nat
    requires IsCompressedYuv(f)
  {
    MetaLines(f, (height + 1) / 2)
  }

  function CompressedSize(f: Format, width: nat, height: nat): nat
    requires IsCompressedYuv(f)
  {
    Pages(Bytes(Stride(f, width), Lines(f, height))) + Pages(Bytes(Stride(f, width), ChromaLines(f, height)))
    + Pages(Bytes(MetaStride(f, width), MetaLines(f, height))) + Pages(Bytes(ChromaMetaStride(f, width), ChromaMetaLines(f, height)))
  }

  /** All planes of a picture; a small Nv12Ubwc one is laid out as two fields. */
  function PlanesSize(f: Format, width: nat, height: nat): nat {
    if f == Unknown then 0
    else if f == Rgba8888 then Pages(Bytes(Stride(f, width), Lines(f, height)))
    else if IsCompressedRgb(f) then
      Pages(Bytes(Stride(f, width), Lines(f, height))) + Pages(Bytes(MetaStride(f, width), MetaLines(f, height)))
    else if f == Nv12Ubwc && IsSmall(width, height) then 2 * CompressedSize(f, width, (height + 1) / 2)
    else if IsCompressedYuv(f) then CompressedSize(f, width, height)
    else Bytes(Stride(f, width), Lines(f, height)) + Bytes(Stride(f, width), ChromaLines(f, height))
  }

  predicate IsSmall(width: nat, height: nat) {
    && width <= INTERLACE_WIDTH_MAX && height <= INTERLACE_HEIGHT_MAX
    && height * width / 256 <= INTERLACE_MB_PER_FRAME_MAX
  }

  /** What a picture takes, in whole pages. */
  function FullSize(f: Format, width: nat, height: nat): nat {
    if width == 0 || height == 0 then 0 else Pages(PlanesSize(f, width, height))
  }

  // ------------------------------------------------------------------------
  // 32 bits are enough
  // ------------------------------------------------------------------------

  lemma CeilBounds(x: nat, a: nat)
    requires a > 0
    ensures x <= Ceil(x, a) <= x + a - 1 && (x > 0 ==> Ceil(x, a) >= a)
  {
    var q, r := (x + a - 1) / a, (x + a - 1) % a;
    assert x + a - 1 == q * a + r;
    if x > 0 {
      AtLeastOne(x + a - 1, a);
      TimesKeepsOrder(1, q, a);
    }
  }

  lemma AtLeastOne(n: nat, a: nat)
    requires n >= a > 0
    ensures n / a >= 1
  {
  }

  lemma AlignIsCeil(x: U32, a: U32)
    requires 0 < a && x + a - 1 < WORD
    ensures Align(x, a) == Ceil(x, a)
  {
    WrapSmall(x + a - 1);
  }

  lemma RoundUpIsTiles(x: U32, r: U32)
    requires 0 < r && x + r - 1 < WORD
    ensures RoundUp(x, r) == Tiles(x, r)
  {
    WrapSmall(x + r - 1);
  }

  lemma TilesBound(x: nat, r: nat)
    requires r > 0
    ensures Tiles(x, r) <= x
  {
    TimesOne(x, r);
    DivideBy(x + r - 1, r, x);
  }

  lemma DivideBy(n: nat, r: nat, x: nat)
    requires r > 0 && n < x * r + r
    ensures n / r <= x
  {
    DivisionBelow(n, r);
    Multiples(n / r, x, r);
  }

  lemma PagesFit(x: nat)
    requires Pages(x) < WORD
    ensures x < WORD && Align(x, PAGE) == Pages(x)
  {
    CeilBounds(x, PAGE);
    assert Pages(x) <= WORD - PAGE;
    AlignIsCeil(x, PAGE);
  }

  /** A plane whose pages fit is computed without wrap-around. */
  lemma PlaneFits(stride: U32, lines: U32)
    requires Pages(Bytes(stride, lines)) < WORD
    ensures Plane(stride, lines) == Pages(Bytes(stride, lines))
  {
    PagesFit(Bytes(stride, lines));
    AreaIs(stride, lines, Bytes(stride, lines));
  }

  const WIDE := 0x1000_0000
  const TALL := 0x200_0000

  /** Sides within which no stride and no line count wraps. */
  predicate Fits(width: nat, height: nat) {
    0 < width < WIDE && 0 < height < TALL
  }

  lemma AlignFitsCeil(x: nat, a: U32)
    requires 0 < a <= 512 && x <= 0x8000_0000
    ensures Align(x, a) == Ceil(x, a) <= x + 511
  {
    CeilBounds(x, a);
    AlignIsCeil(x, a);
  }

  lemma StrideFits(f: Format, width: U32)
    requires 0 < width < WIDE && f != Unknown
    ensures Stride(f, width) == if HasChroma(f) then YStride(f, width) else RgbStride(f, width)
  {
    match f
    case Nv12Block512 => AlignFitsCeil(width, 512);
    case Nv12 | Nv21 | Nv12Ubwc => AlignFitsCeil(width, 128);
    case Nv12Bpp10Ubwc =>
      AlignFitsCeil(width, 192);
      WrapSmall(Ceil(width, 192) * 4);
      AlignFitsCeil(Ceil(width, 192) * 4 / 3, 256);
    case P010Ubwc | P010 | Rgb565Ubwc => WrapSmall(width * 2); AlignFitsCeil(width * 2, 256);
    case P010Block512 => WrapSmall(width * 2); AlignFitsCeil(width * 2, 512);
    case Rgba8888 | Rgba8888Ubwc | Rgba1010102Ubwc => WrapSmall(width * 4); AlignFitsCeil(width * 4, 256);
    case Rgba16161616FUbwc => WrapSmall(width * 8); AlignFitsCeil(width * 8, 256);
  }

  lemma LinesFit(f: Format, height: U32)
    requires 0 < height < TALL && f != Unknown
    ensures Lines(f, height) == if HasChroma(f) then YScanlines(f, height) else RgbScanlines(f, height)
  {
    AlignFitsCeil(height, 512);
    AlignFitsCeil(height, 32);
    AlignFitsCeil(height, 16);
  }

  lemma HalfIs(x: U32)
    requires x < WIDE
    ensures Half(x) == (x + 1) / 2 < WIDE && (x > 0 ==> Half(x) > 0)
  {
    WrapSmall(x + 1);
  }

  lemma ChromaLinesFit(f: Format, height: U32)
    requires 0 < height < TALL && HasChroma(f)
    ensures ChromaLines(f, height) == UvScanlines(f, height)
  {
    HalfIs(height);
    AlignFitsCeil(Half(height), 256);
    AlignFitsCeil(Half(height), 32);
    AlignFitsCeil(Half(height), 16);
  }

  lemma MetaFits(x: U32, r: U32, a: U32)
    requires x < WIDE && 0 < r <= 64 && 0 < a <= 64
    ensures Align(RoundUp(x, r), a) == Ceil(Tiles(x, r), a)
  {
    RoundUpIsTiles(x, r);
    TilesBound(x, r);
    AlignFitsCeil(Tiles(x, r), a);
  }

  lemma YuvMetaFits(f: Format, width: U32, height: U32)
    requires IsCompressedYuv(f) && Fits(width, height)
    ensures YMetaStride(f, width) == MetaStride(f, width) && YMetaScanlines(f, height) == MetaLines(f, height)
    ensures UvMetaStride(f, width) == ChromaMetaStride(f, width)
    ensures UvMetaScanlines(f, height) == ChromaMetaLines(f, height)
  {
    var (w, v) := if f == Nv12Bpp10Ubwc then (48, 24) else (32, 16);
    var t := if f == Nv12Ubwc then 8 else 4;
    HalfIs(width);
    HalfIs(height);
    MetaFits(width, w, 64);
    MetaFits(Half(width), v, 64);
    MetaFits(height, t, 16);
    MetaFits(Half(height), t, 16);
  }

  lemma RgbMetaFits(f: Format, width: U32, height: U32)
    requires IsCompressedRgb(f) && Fits(width, height)
    ensures RgbMetaStride(f, width) == MetaStride(f, width) && RgbMetaScanlines(f, height) == MetaLines(f, height)
  {
    MetaFits(width, if f == Rgba16161616FUbwc then 8 else 16, 64);
    MetaFits(height, 4, 16);
  }

  lemma SumIs(a: U32, b: U32, c: U32, d: U32)
    requires a + b + c + d < WORD
    ensures Sum(a, b, c, d) == a + b + c + d
  {
    WrapSmall(a + b + c + d);
  }

  lemma CompressedFits(f: Format, width: U32, height: U32)
    requires IsCompressedYuv(f) && Fits(width, height) && CompressedSize(f, width, height) < WORD
    ensures UbwcPlanes(f, width, height) == CompressedSize(f, width, height)
  {
    YuvLayout(f, width, height);
    YuvMetaFits(f, width, height);
    PlaneFits(YStride(f, width), YScanlines(f, height));
    PlaneFits(YStride(f, width), UvScanlines(f, height));
    PlaneFits(YMetaStride(f, width), YMetaScanlines(f, height));
    PlaneFits(UvMetaStride(f, width), UvMetaScanlines(f, height));
    SumIs(YPlane(f, width, height), UvPlane(f, width, height), YMetaPlane(f, width, height), UvMetaPlane(f, width, height));
  }

  lemma YuvLayout(f: Format, width: U32, height: U32)
    requires HasChroma(f) && Fits(width, height)
    ensures YStride(f, width) == Stride(f, width)
    ensures YScanlines(f, height) == Lines(f, height) && UvScanlines(f, height) == ChromaLines(f, height)
  {
    StrideFits(f, width);
    LinesFit(f, height);
    ChromaLinesFit(f, height);
  }

  lemma TwoPlanesFit(f: Format, width: U32, height: U32)
    requires HasChroma(f) && Fits(width, height)
    requires Bytes(Stride(f, width), Lines(f, height)) + Bytes(Stride(f, width), ChromaLines(f, height)) < WORD
    ensures Wrap(Area(YStride(f, width), YScanlines(f, height)) + Area(YStride(f, width), UvScanlines(f, height))) ==
            Bytes(Stride(f, width), Lines(f, height)) + Bytes(Stride(f, width), ChromaLines(f, height))
  {
    YuvLayout(f, width, height);
    TwoAreas(YStride(f, width), YScanlines(f, height), UvScanlines(f, height));
  }

  lemma TwoAreas(stride: U32, lines: U32, chroma: U32)
    requires Bytes(stride, lines) + Bytes(stride, chroma) < WORD
    ensures Wrap(Area(stride, lines) + Area(stride, chroma)) == Bytes(stride, lines) + Bytes(stride, chroma)
  {
    AreaIs(stride, lines, Bytes(stride, lines));
    AreaIs(stride, chroma, Bytes(stride, chroma));
    WrapSmall(Bytes(stride, lines) + Bytes(stride, chroma));
  }

  lemma RawOfTwo(f: Format, width: U32, height: U32)
    requires HasChroma(f) && !IsCompressedYuv(f)
    ensures RawSize(f, width, height) ==
      Wrap(Area(YStride(f, width), YScanlines(f, height)) + Area(YStride(f, width), UvScanlines(f, height)))
    ensures PlanesSize(f, width, height) ==
      Bytes(Stride(f, width), Lines(f, height)) + Bytes(Stride(f, width), ChromaLines(f, height))
  {
  }

  lemma RawOfRgb(f: Format, width: U32, height: U32, plane: U32, meta: U32)
    requires !HasChroma(f) && f != Unknown
    requires plane == Plane(RgbStride(f, width), RgbScanlines(f, height))
    requires meta == Plane(RgbMetaStride(f, width), RgbMetaScanlines(f, height))
    ensures RawSize(f, width, height) == if f == Rgba8888 then plane else Wrap(plane + meta)
  {
  }

  lemma RgbFits(f: Format, width: U32, height: U32)
    requires !HasChroma(f) && f != Unknown && Fits(width, height) && PlanesSize(f, width, height) < WORD
    ensures RawSize(f, width, height) == PlanesSize(f, width, height)
  {
    var plane := Plane(RgbStride(f, width), RgbScanlines(f, height));
    var meta := Plane(RgbMetaStride(f, width), RgbMetaScanlines(f, height));
    RawOfRgb(f, width, height, plane, meta);
    RgbPlaneFits(f, width, height);
    if f != Rgba8888 {
      RgbMetaPlaneFits(f, width, height);
      WrapSmall(plane + meta);
    }
  }

  lemma RgbPlaneFits(f: Format, width: U32, height: U32)
    requires !HasChroma(f) && f != Unknown && Fits(width, height)
    requires Pages(Bytes(Stride(f, width), Lines(f, height))) < WORD
    ensures Plane(RgbStride(f, width), RgbScanlines(f, height)) == Pages(Bytes(Stride(f, width), Lines(f, height)))
  {
    StrideFits(f, width);
    LinesFit(f, height);
    PlaneFits(RgbStride(f, width), RgbScanlines(f, height));
  }

  lemma RgbMetaPlaneFits(f: Format, width: U32, height: U32)
    requires IsCompressedRgb(f) && Fits(width, height)
    requires Pages(Bytes(MetaStride(f, width), MetaLines(f, height))) < WORD
    ensures Plane(RgbMetaStride(f, width), RgbMetaScanlines(f, height)) ==
            Pages(Bytes(MetaStride(f, width), MetaLines(f, height)))
  {
    RgbMetaFits(f, width, height);
    PlaneFits(RgbMetaStride(f, width), RgbMetaScanlines(f, height));
  }

  lemma SmallIs(width: U32, height: U32)
    ensures MayBeInterlaced(width, height) <==> IsSmall(width, height)
  {
    if width <= INTERLACE_WIDTH_MAX && height <= INTERLACE_HEIGHT_MAX {
      TimesKeepsOrder(height, INTERLACE_HEIGHT_MAX, width);
      TimesKeepsOrder(width, INTERLACE_WIDTH_MAX, INTERLACE_HEIGHT_MAX);
      WrapSmall(height * width);
    }
  }

  lemma RawFits(f: Format, width: U32, height: U32)
    requires f != Unknown && Fits(width, height) && PlanesSize(f, width, height) < WORD
    ensures RawSize(f, width, height) == PlanesSize(f, width, height)
  {
    SmallIs(width, height);
    if !HasChroma(f) { RgbFits(f, width, height); }
    else if !IsCompressedYuv(f) {
      RawOfTwo(f, width, height);
      TwoPlanesFit(f, width, height);
    }
    else if f == Nv12Ubwc && IsSmall(width, height) {
      HalfIs(height);
      CompressedFits(f, width, Half(height));
      WrapSmall(UbwcPlanes(f, width, Half(height)) * 2);
    } else {
      CompressedFits(f, width, height);
    }
  }

  // ------------------------------------------------------------------------
  // Sides of a picture that fits
  // ------------------------------------------------------------------------

  lemma StrideCovers(f: Format, width: nat)
    requires f != Unknown && width > 0
    ensures Stride(f, width) >= width && Stride(f, width) >= 128
  {
    match f
    case Nv12Block512 => CeilBounds(width, 512);
    case Nv12 | Nv21 | Nv12Ubwc => CeilBounds(width, 128);
    case Nv12Bpp10Ubwc => CeilBounds(width, 192); CeilBounds(Ceil(width, 192) * 4 / 3, 256);
    case P010Ubwc | P010 | Rgb565Ubwc => CeilBounds(width * 2, 256);
    case P010Block512 => CeilBounds(width * 2, 512);
    case Rgba8888 | Rgba8888Ubwc | Rgba1010102Ubwc => CeilBounds(width * 4, 256);
    case Rgba16161616FUbwc => CeilBounds(width * 8, 256);
  }

  lemma LinesCover(f: Format, height: nat)
    requires f != Unknown && height > 0
    ensures Lines(f, height) >= height && Lines(f, height) >= 16
  {
    CeilBounds(height, 512);
    CeilBounds(height, 32);
    CeilBounds(height, 16);
  }

  lemma PlaneWithin(f: Format, width: nat, height: nat)
    requires f != Unknown && !(f == Nv12Ubwc && IsSmall(width, height))
    ensures Bytes(Stride(f, width), Lines(f, height)) <= PlanesSize(f, width, height)
  {
    CeilBounds(Bytes(Stride(f, width), Lines(f, height)), PAGE);
  }

  lemma SidesFit(f: Format, width: nat, height: nat)
    requires f != Unknown && width > 0 && height > 0 && PlanesSize(f, width, height) < WORD
    ensures Fits(width, height)
  {
    if !(f == Nv12Ubwc && IsSmall(width, height)) {
      var stride, lines := Stride(f, width), Lines(f, height);
      StrideCovers(f, width);
      LinesCover(f, height);
      PlaneWithin(f, width, height);
      TimesKeepsOrder(16, lines, stride);
      TimesKeepsOrder(128, stride, lines);
      assert 16 * stride <= Bytes(stride, lines) && 128 * lines <= Bytes(stride, lines);
    }
  }

  /** The computed size is right exactly if it fits 32 bits. */
  lemma SizeIsFull(f: Format, width: U32, height: U32)
    ensures BufferSize(f, width, height) == FullSize(f, width, height) <==> FullSize(f, width, height) < WORD
  {
    if width == 0 || height == 0 || f == Unknown { AlignIsCeil(0, PAGE); }
    else if FullSize(f, width, height) < WORD { SizeFits(f, width, height, PlanesSize(f, width, height)); }
  }

  lemma SizeFits(f: Format, width: U32, height: U32, planes: nat)
    requires f != Unknown && width > 0 && height > 0 && planes == PlanesSize(f, width, height) && Pages(planes) < WORD
    ensures BufferSize(f, width, height) == Pages(planes)
  {
    PagesFit(planes);
    RawIsPlanes(f, width, height, planes);
  }

  lemma RawIsPlanes(f: Format, width: U32, height: U32, planes: nat)
    requires f != Unknown && width > 0 && height > 0 && planes == PlanesSize(f, width, height) < WORD
    ensures RawSize(f, width, height) == planes
  {
    SidesFit(f, width, height);
    RawFits(f, width, height);
  }

  // ------------------------------------------------------------------------
  // The picture fits
  // ------------------------------------------------------------------------

  /** The bytes of a line: samples of 8 bits, of 10 bits packed three to four bytes, of 16 bits, or pixels. */
  function LineBytes(f: Format, width: nat): nat {
    match f
    case Nv12 | Nv21 | Nv12Block512 | Nv12Ubwc => width
    case Nv12Bpp10Ubwc => width * 4 / 3
    case P010 | P010Block512 | P010Ubwc | Rgb565Ubwc => 2 * width
    case Rgba8888 | Rgba8888Ubwc | Rgba1010102Ubwc => 4 * width
    case Rgba16161616FUbwc => 8 * width
    case Unknown => 0
  }

  /** Luma lines and half as many chroma lines, rounded up, or pixel lines. */
  function PictureBytes(f: Format, width: nat, height: nat): nat {
    var line := LineBytes(f, width);
    if HasChroma(f) then line * height + line * ((height + 1) / 2) else line * height
  }

  lemma StrideHolds(f: Format, width: nat)
    requires f != Unknown
    ensures LineBytes(f, width) <= Stride(f, width)
  {
    match f
    case Nv12Block512 => CeilBounds(width, 512);
    case Nv12 | Nv21 | Nv12Ubwc => CeilBounds(width, 128);
    case Nv12Bpp10Ubwc => CeilBounds(width, 192); CeilBounds(Ceil(width, 192) * 4 / 3, 256);
    case P010Ubwc | P010 | Rgb565Ubwc => CeilBounds(width * 2, 256);
    case P010Block512 => CeilBounds(width * 2, 512);
    case Rgba8888 | Rgba8888Ubwc | Rgba1010102Ubwc => CeilBounds(width * 4, 256);
    case Rgba16161616FUbwc => CeilBounds(width * 8, 256);
  }

  lemma AreaHolds(line: nat, stride: nat, count: nat, lines: nat)
    requires line <= stride && count <= lines
    ensures line * count <= Bytes(stride, lines) <= Pages(Bytes(stride, lines))
  {
    TimesKeepsOrder(line, stride, count);
    TimesKeepsOrder(count, lines, stride);
    CeilBounds(Bytes(stride, lines), PAGE);
  }

  lemma ChromaLinesCover(f: Format, height: nat)
    requires HasChroma(f)
    ensures (height + 1) / 2 <= ChromaLines(f, height)
  {
    CeilBounds((height + 1) / 2, if f == Nv12Block512 then 256 else if f == Nv12Ubwc then 32 else 16);
  }

  /** The luma and chroma planes of `height` lines. */
  lemma YuvHolds(f: Format, width: nat, height: nat)
    requires HasChroma(f) && height > 0
    ensures PictureBytes(f, width, height) <=
      Bytes(Stride(f, width), Lines(f, height)) + Bytes(Stride(f, width), ChromaLines(f, height))
    ensures IsCompressedYuv(f) ==> PictureBytes(f, width, height) <= CompressedSize(f, width, height)
  {
    StrideHolds(f, width);
    LinesCover(f, height);
    ChromaLinesCover(f, height);
    AreaHolds(LineBytes(f, width), Stride(f, width), height, Lines(f, height));
    AreaHolds(LineBytes(f, width), Stride(f, width), (height + 1) / 2, ChromaLines(f, height));
  }

  /** Two fields have at least as many lines, and chroma lines, as the frame. */
  lemma TwoFieldsHold(line: nat, height: nat, field: nat)
    requires field == (height + 1) / 2
    ensures line * height + line * field <= 2 * (line * field + line * ((field + 1) / 2))
  {
    var half := (field + 1) / 2;
    TimesKeepsOrder(height, 2 * field, line);
    TimesKeepsOrder(field, 2 * half, line);
    assert line * (2 * field) == 2 * (line * field) && line * (2 * half) == 2 * (line * half);
  }

  lemma RgbHolds(f: Format, width: nat, height: nat)
    requires !HasChroma(f) && f != Unknown && height > 0
    ensures PictureBytes(f, width, height) <= Pages(Bytes(Stride(f, width), Lines(f, height)))
  {
    StrideHolds(f, width);
    LinesCover(f, height);
    AreaHolds(LineBytes(f, width), Stride(f, width), height, Lines(f, height));
  }

  lemma PlanesHold(f: Format, width: nat, height: nat)
    requires f != Unknown && width > 0 && height > 0
    ensures PictureBytes(f, width, height) <= PlanesSize(f, width, height)
  {
    if !HasChroma(f) {
      RgbHolds(f, width, height);
    } else if f == Nv12Ubwc && IsSmall(width, height) {
      FieldsHold(width, height, (height + 1) / 2);
    } else {
      YuvHolds(f, width, height);
    }
  }

  lemma FieldsHold(width: nat, height: nat, field: nat)
    requires height > 0 && field == (height + 1) / 2
    ensures PictureBytes(Nv12Ubwc, width, height) <= 2 * CompressedSize(Nv12Ubwc, width, field)
  {
    YuvHolds(Nv12Ubwc, width, field);
    TwoFieldsHold(width, height, field);
  }

  lemma NoPicture(f: Format, width: nat, height: nat)
    requires f == Unknown || width == 0 || height == 0
    ensures PictureBytes(f, width, height) == 0
  {
  }

  /** Every picture fits the layout, and so the buffer whenever its size was computed right. */
  lemma BufferHoldsPicture(f: Format, width: U32, height: U32)
    ensures PictureBytes(f, width, height) <= FullSize(f, width, height)
    ensures FullSize(f, width, height) < WORD ==> PictureBytes(f, width, height) <= BufferSize(f, width, height)
  {
    if f != Unknown && width > 0 && height > 0 {
      PlanesHold(f, width, height);
      CeilBounds(PlanesSize(f, width, height), PAGE);
    } else {
      NoPicture(f, width, height);
    }
    SizeIsFull(f, width, height);
  }

  lemma CeilOfMultiple(x: nat, a: nat, q: nat)
    requires a > 0 && x == q * a
    ensures Ceil(x, a) == x
  {
    var m := (x + a - 1) / a;
    CeilBounds(x, a);
    Multiples(m, q, a);
    Multiples(q, m, a);
  }

  lemma LargeStride(f: Format, side: U32)
    requires f == Nv12 && side == 0x1_0000
    ensures YStride(f, side) == side
  {
    CeilOfMultiple(side, 128, 512);
    StrideFits(f, side);
  }

  lemma LargeLines(f: Format, side: U32)
    requires f == Nv12 && side == 0x1_0000
    ensures YScanlines(f, side) == side
  {
    CeilOfMultiple(side, 32, 2048);
    LinesFit(f, side);
  }

  lemma LargeChroma(f: Format, side: U32)
    requires f == Nv12 && side == 0x1_0000
    ensures UvScanlines(f, side) == 0x8000
  {
    CeilOfMultiple(0x8000, 16, 2048);
    ChromaLinesFit(f, side);
  }

  lemma LargeRaw(side: U32)
    requires side == 0x1_0000
    ensures Wrap(Area(side, side) + Area(side, 0x8000)) == 0x8000_0000
  {
    assert side * side == WORD && side * 0x8000 == 0x8000_0000;
  }

  lemma LargeRawIs(f: Format, side: U32, raw: U32)
    requires f == Nv12 && side == 0x1_0000 && raw == RawSize(f, side, side)
    ensures raw == 0x8000_0000
  {
    LargeRaw(side);
    RawOfTwo(f, side, side);
    LargeStride(f, side);
    LargeLines(f, side);
    LargeChroma(f, side);
  }

  lemma BufferIs(f: Format, width: U32, height: U32, raw: U32)
    requires width > 0 && height > 0 && raw == RawSize(f, width, height)
    ensures BufferSize(f, width, height) == Align(raw, PAGE)
  {
  }

  /** A picture whose size wraps around, and which the buffer does not hold. */
  lemma LargePictureWraps(f: Format, side: U32)
    requires f == Nv12 && side == 0x1_0000
    ensures BufferSize(f, side, side) == 0x8000_0000 < PictureBytes(f, side, side)
  {
    LargePicture(f, side);
    LargeRawIs(f, side, RawSize(f, side, side));
    BufferIs(f, side, side, 0x8000_0000);
    WholePages(0x8000_0000);
  }

  lemma WholePages(raw: U32)
    requires raw == 0x8000_0000
    ensures Align(raw, PAGE) == raw
  {
    CeilOfMultiple(raw, PAGE, 0x8_0000);
    AlignIsCeil(raw, PAGE);
  }

  lemma LargePicture(f: Format, side: U32)
    requires f == Nv12 && side == 0x1_0000
    ensures PictureBytes(f, side, side) >= WORD
  {
    assert side * side == WORD;
    TimesKeepsOrder(0, (side + 1) / 2, side);
  }
}
