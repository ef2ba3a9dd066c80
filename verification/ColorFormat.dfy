/**
 Buffer layout of the display colour formats
 (compat/kernel-headers/include/display/media/mmm_color_fmt.h).
 */
module ColorFormat {
  import opened Alignment

  const PAGE := 4096

  // ------------------------------------------------------------------------
  // Planes
  // ------------------------------------------------------------------------

  datatype Format =
    | Nv12 | Nv21 | Nv12Block512 | Nv12Ubwc | Nv12Bpp10Ubwc
    | P010 | P010Block512 | P010Ubwc
    | Rgba8888 | Rgba8888Ubwc | Rgba1010102Ubwc | Rgb565Ubwc | Rgba16161616FUbwc
    | Unknown

  function YStride(f: Format, width: U32): U32 {
    if width == 0 then 0
    else
      match f
      case Nv12Block512 => Align(width, 512)
      case Nv12 | Nv21 | Nv12Ubwc => Align(width, 128)
      case Nv12Bpp10Ubwc => Align(Wrap(Align(width, 192) * 4) / 3, 256)
      case P010Ubwc | P010 => Align(Wrap(width * 2), 256)
      case P010Block512 => Align(Wrap(width * 2), 512)
      case _ => 0
  }

  /** The source spells the same switch out twice. */
  function UvStride(f: Format, width: U32): U32 {
    YStride(f, width)
  }

  function YScanlines(f: Format, height: U32): U32 {
    if height == 0 then 0
    else
      match f
      case Nv12Block512 => Align(height, 512)
      case Nv12 | Nv21 | Nv12Ubwc | P010Block512 | P010 => Align(height, 32)
      case Nv12Bpp10Ubwc | P010Ubwc => Align(height, 16)
      case _ => 0
  }

  function Half(x: U32): U32 {
    Wrap(x + 1) / 2
  }

  function UvScanlines(f: Format, height: U32): U32 {
    if height == 0 then 0
    else
      match f
      case Nv12Block512 => Align(Half(height), 256)
      case Nv12 | Nv21 | Nv12Bpp10Ubwc | P010Ubwc | P010Block512 | P010 => Align(Half(height), 16)
      case Nv12Ubwc => Align(Half(height), 32)
      case _ => 0
  }

  function YMetaStride(f: Format, width: U32): U32 {
    if width == 0 then 0
    else
      match f
      case Nv12Ubwc | P010Ubwc => Align(RoundUp(width, 32), 64)
      case Nv12Bpp10Ubwc => Align(RoundUp(width, 48), 64)
      case _ => 0
  }

  function YMetaScanlines(f: Format, height: U32): U32 {
    if height == 0 then 0
    else
      match f
      case Nv12Ubwc => Align(RoundUp(height, 8), 16)
      case Nv12Bpp10Ubwc | P010Ubwc => Align(RoundUp(height, 4), 16)
      case _ => 0
  }

  function UvMetaStride(f: Format, width: U32): U32 {
    if width == 0 then 0
    else
      match f
      case Nv12Ubwc | P010Ubwc => Align(RoundUp(Half(width), 16), 64)
      case Nv12Bpp10Ubwc => Align(RoundUp(Half(width), 24), 64)
      case _ => 0
  }

  function UvMetaScanlines(f: Format, height: U32): U32 {
    if height == 0 then 0
    else
      match f
      case Nv12Ubwc => Align(RoundUp(Half(height), 8), 16)
      case Nv12Bpp10Ubwc | P010Ubwc => Align(RoundUp(Half(height), 4), 16)
      case _ => 0
  }

  function RgbStride(f: Format, width: U32): U32 {
    if width == 0 then 0
    else
      match f
      case Rgba8888 | Rgba8888Ubwc | Rgba1010102Ubwc => Align(Wrap(width * 4), 256)
      case Rgb565Ubwc => Align(Wrap(width * 2), 256)
      case Rgba16161616FUbwc => Align(Wrap(width * 8), 256)
      case _ => 0
  }

  function RgbScanlines(f: Format, height: U32): U32 {
    if height == 0 then 0
    else
      match f
      case Rgba8888 => Align(height, 32)
      case Rgba8888Ubwc | Rgba1010102Ubwc | Rgb565Ubwc | Rgba16161616FUbwc => Align(height, 16)
      case _ => 0
  }

  function RgbMetaStride(f: Format, width: U32): U32 {
    if width == 0 then 0
    else
      match f
      case Rgba8888Ubwc | Rgba1010102Ubwc | Rgb565Ubwc => Align(RoundUp(width, 16), 64)
      case Rgba16161616FUbwc => Align(RoundUp(width, 8), 64)
      case _ => 0
  }

  function RgbMetaScanlines(f: Format, height: U32): U32 {
    if height == 0 then 0
    else
      match f
      case Rgba8888Ubwc | Rgba1010102Ubwc | Rgb565Ubwc | Rgba16161616FUbwc => Align(RoundUp(height, 4), 16)
      case _ => 0
  }

  // ------------------------------------------------------------------------
  // Sizes
  // ------------------------------------------------------------------------

  function Area(stride: U32, scanlines: U32): U32 {
    Wrap(stride * scanlines)
  }

  function Plane(stride: U32, scanlines: U32): U32 {
    Align(Area(stride, scanlines), PAGE)
  }

  function YPlane(f: Format, width: U32, height: U32): U32 {
    Plane(YStride(f, width), YScanlines(f, height))
  }

  function UvPlane(f: Format, width: U32, height: U32): U32 {
    Plane(UvStride(f, width), UvScanlines(f, height))
  }

  function YMetaPlane(f: Format, width: U32, height: U32): U32 {
    Plane(YMetaStride(f, width), YMetaScanlines(f, height))
  }

  function UvMetaPlane(f: Format, width: U32, height: U32): U32 {
    Plane(UvMetaStride(f, width), UvMetaScanlines(f, height))
  }

  /** The four planes of a compressed picture of `height` lines. */
  function UbwcPlanes(f: Format, width: U32, height: U32): U32 {
    Sum(YPlane(f, width, height), UvPlane(f, width, height),
        YMetaPlane(f, width, height), UvMetaPlane(f, width, height))
  }

  function Sum(a: U32, b: U32, c: U32, d: U32): U32 {
    Wrap(a + b + c + d)
  }

  const INTERLACE_WIDTH_MAX := 1920
  const INTERLACE_HEIGHT_MAX := 1920
  const INTERLACE_MB_PER_FRAME_MAX := 1920 * 1088 / 256

  predicate MayBeInterlaced(width: U32, height: U32) {
    && width <= INTERLACE_WIDTH_MAX && height <= INTERLACE_HEIGHT_MAX
    && Wrap(height * width) / 256 <= INTERLACE_MB_PER_FRAME_MAX
  }

  function RawSize(f: Format, width: U32, height: U32): U32 {
    match f
    case Nv21 | Nv12 | P010Block512 | P010 | Nv12Block512 =>
      Wrap(Area(YStride(f, width), YScanlines(f, height)) + Area(UvStride(f, width), UvScanlines(f, height)))
    case Nv12Ubwc =>
      if MayBeInterlaced(width, height) then Wrap(UbwcPlanes(f, width, Half(height)) * 2)
      else UbwcPlanes(f, width, height)
    case Nv12Bpp10Ubwc | P010Ubwc => UbwcPlanes(f, width, height)
    case Rgba8888 => Plane(RgbStride(f, width), RgbScanlines(f, height))
    case Rgba8888Ubwc | Rgba1010102Ubwc | Rgb565Ubwc | Rgba16161616FUbwc =>
      Wrap(Plane(RgbStride(f, width), RgbScanlines(f, height))
           + Plane(RgbMetaStride(f, width), RgbMetaScanlines(f, height)))
    case Unknown => 0
  }

  function BufferSize(f: Format, width: U32, height: U32): U32 {
    Align(if width == 0 || height == 0 then 0 else RawSize(f, width, height), PAGE)
  }

  function BufferSizeUsed(f: Format, width: U32, height: U32, interlace: bool): U32 {
    if width == 0 || height == 0 then 0
    else if !interlace && f == Nv12Ubwc then Align(UbwcPlanes(f, width, height), PAGE)
    else BufferSize(f, width, height)
  }

  // ------------------------------------------------------------------------
  // The used size fits the buffer
  // ------------------------------------------------------------------------

  lemma AreaOfDouble(stride: nat, full: nat, half: nat)
    requires full <= 2 * half && stride <= 2048 && half <= 2048
    ensures 0 <= stride * full <= 2 * (stride * half) && 0 <= stride * half <= 2048 * 2048
  {
    TimesKeepsOrder(full, 2 * half, stride);
    TimesKeepsOrder(stride, 2048, half);
    assert 2 * half * stride == 2 * (stride * half);
  }

  lemma PagesOfDouble(full: U32, half: U32)
    requires full <= 2 * half && half <= 2048 * 2048
    ensures Align(full, PAGE) <= 2 * Align(half, PAGE) < 10_000_000
  {
    AlignOfDouble(full, half, PAGE);
    AlignBounds(half, PAGE);
  }

  lemma AreaIs(stride: U32, scanlines: U32, area: nat)
    requires stride * scanlines == area < WORD
    ensures Area(stride, scanlines) == area
  {
  }

  lemma PlaneOfDouble(stride: U32, full: U32, half: U32)
    requires full <= 2 * half && stride <= 2048 && half <= 2048
    ensures Plane(stride, full) <= 2 * Plane(stride, half) < 10_000_000
  {
    AreaOfDouble(stride, full, half);
    AreaIs(stride, full, stride * full);
    AreaIs(stride, half, stride * half);
    PagesOfDouble(Area(stride, full), Area(stride, half));
  }

  /** Lines of a frame and of a field, counted in tiles of `tile` lines and aligned. */
  lemma LinesOfDouble(full: U32, half: U32, tile: U32, align: U32)
    requires full <= 2 * half && half <= 960 && 0 < tile <= 8 && 0 < align <= 64
    ensures Align(RoundUp(full, tile), align) <= 2 * Align(RoundUp(half, tile), align) <= 4096
  {
    RoundUpOfDouble(full, half, tile);
    RoundUpBounds(half, tile);
    RoundUpBounds(full, tile);
    AlignOfDouble(RoundUp(full, tile), RoundUp(half, tile), align);
    AlignBounds(RoundUp(half, tile), align);
  }

  lemma HalfBounds(x: U32)
    requires x <= INTERLACE_WIDTH_MAX
    ensures Half(x) <= 960 && x <= 2 * Half(x) && (x > 0 ==> Half(x) > 0)
  {
  }

  /** The line counts of a field cover half of the frame's. */
  lemma FieldLines(height: U32)
    requires 0 < height <= INTERLACE_HEIGHT_MAX
    ensures YScanlines(Nv12Ubwc, height) <= 2 * YScanlines(Nv12Ubwc, Half(height)) <= 4096
    ensures UvScanlines(Nv12Ubwc, height) <= 2 * UvScanlines(Nv12Ubwc, Half(height)) <= 4096
  {
    var field, quarter := Half(height), Half(Half(height));
    HalfBounds(height);
    HalfBounds(field);
    AlignOfDouble(height, field, 32);
    AlignOfDouble(field, quarter, 32);
    AlignBounds(field, 32);
    AlignBounds(quarter, 32);
  }

  lemma FieldMetaLines(height: U32)
    requires 0 < height <= INTERLACE_HEIGHT_MAX
    ensures YMetaScanlines(Nv12Ubwc, height) <= 2 * YMetaScanlines(Nv12Ubwc, Half(height)) <= 4096
    ensures UvMetaScanlines(Nv12Ubwc, height) <= 2 * UvMetaScanlines(Nv12Ubwc, Half(height)) <= 4096
  {
    var field, quarter := Half(height), Half(Half(height));
    HalfBounds(height);
    HalfBounds(field);
    LinesOfDouble(height, field, 8, 16);
    LinesOfDouble(field, quarter, 8, 16);
  }

  lemma SmallStrides(width: U32)
    requires 0 < width <= INTERLACE_WIDTH_MAX
    ensures YStride(Nv12Ubwc, width) <= 2048 && UvStride(Nv12Ubwc, width) <= 2048
    ensures YMetaStride(Nv12Ubwc, width) <= 2048 && UvMetaStride(Nv12Ubwc, width) <= 2048
  {
    HalfBounds(width);
    AlignBounds(width, 128);
    RoundUpBounds(width, 32);
    AlignBounds(RoundUp(width, 32), 64);
    RoundUpBounds(Half(width), 16);
    AlignBounds(RoundUp(Half(width), 16), 64);
  }

  predicate Twice(frame: U32, field: U32) {
    frame <= 2 * field < 10_000_000
  }

  lemma YPlaneTwice(width: U32, height: U32)
    requires 0 < width <= INTERLACE_WIDTH_MAX && 0 < height <= INTERLACE_HEIGHT_MAX
    ensures Twice(YPlane(Nv12Ubwc, width, height), YPlane(Nv12Ubwc, width, Half(height)))
  {
    FieldLines(height);
    SmallStrides(width);
    PlaneOfDouble(YStride(Nv12Ubwc, width), YScanlines(Nv12Ubwc, height), YScanlines(Nv12Ubwc, Half(height)));
  }

  lemma UvPlaneTwice(width: U32, height: U32)
    requires 0 < width <= INTERLACE_WIDTH_MAX && 0 < height <= INTERLACE_HEIGHT_MAX
    ensures Twice(UvPlane(Nv12Ubwc, width, height), UvPlane(Nv12Ubwc, width, Half(height)))
  {
    FieldLines(height);
    SmallStrides(width);
    PlaneOfDouble(UvStride(Nv12Ubwc, width), UvScanlines(Nv12Ubwc, height), UvScanlines(Nv12Ubwc, Half(height)));
  }

  lemma YMetaPlaneTwice(width: U32, height: U32)
    requires 0 < width <= INTERLACE_WIDTH_MAX && 0 < height <= INTERLACE_HEIGHT_MAX
    ensures Twice(YMetaPlane(Nv12Ubwc, width, height), YMetaPlane(Nv12Ubwc, width, Half(height)))
  {
    FieldMetaLines(height);
    SmallStrides(width);
    PlaneOfDouble(YMetaStride(Nv12Ubwc, width),
                  YMetaScanlines(Nv12Ubwc, height), YMetaScanlines(Nv12Ubwc, Half(height)));
  }

  lemma UvMetaPlaneTwice(width: U32, height: U32)
    requires 0 < width <= INTERLACE_WIDTH_MAX && 0 < height <= INTERLACE_HEIGHT_MAX
    ensures Twice(UvMetaPlane(Nv12Ubwc, width, height), UvMetaPlane(Nv12Ubwc, width, Half(height)))
  {
    FieldMetaLines(height);
    SmallStrides(width);
    PlaneOfDouble(UvMetaStride(Nv12Ubwc, width),
                  UvMetaScanlines(Nv12Ubwc, height), UvMetaScanlines(Nv12Ubwc, Half(height)));
  }

  lemma SumTwice(a: U32, b: U32, c: U32, d: U32, p: U32, q: U32, r: U32, s: U32)
    requires Twice(a, p) && Twice(b, q) && Twice(c, r) && Twice(d, s)
    ensures Sum(a, b, c, d) <= 2 * Sum(p, q, r, s) < 40_000_000
  {
    WrapSmall(a + b + c + d);
    WrapSmall(p + q + r + s);
  }

  lemma FrameFitsTwoFields(width: U32, height: U32)
    requires 0 < width <= INTERLACE_WIDTH_MAX && 0 < height <= INTERLACE_HEIGHT_MAX
    ensures UbwcPlanes(Nv12Ubwc, width, height) <= 2 * UbwcPlanes(Nv12Ubwc, width, Half(height)) < 40_000_000
  {
    var f, field := Nv12Ubwc, Half(height);
    YPlaneTwice(width, height);
    UvPlaneTwice(width, height);
    YMetaPlaneTwice(width, height);
    UvMetaPlaneTwice(width, height);
    SumTwice(YPlane(f, width, height), UvPlane(f, width, height),
             YMetaPlane(f, width, height), UvMetaPlane(f, width, height),
             YPlane(f, width, field), UvPlane(f, width, field),
             YMetaPlane(f, width, field), UvMetaPlane(f, width, field));
  }

  lemma PageAligned(size: U32)
    ensures Align(size, PAGE) % PAGE == 0
  {
    PagesOnly(Wrap(size + PAGE - 1) / PAGE);
  }

  lemma PagesOnly(q: nat)
    ensures q * PAGE % PAGE == 0
  {
  }

  lemma AlignFits(frame: U32, field: U32)
    requires frame <= 2 * field < 40_000_000
    ensures Align(frame, PAGE) <= Align(Wrap(field * 2), PAGE)
  {
    WrapSmall(field * 2);
    AlignMonotone(frame, field * 2, PAGE);
  }

  lemma BufferIsPages(f: Format, width: U32, height: U32)
    ensures BufferSize(f, width, height) % PAGE == 0
  {
    PageAligned(if width == 0 || height == 0 then 0 else RawSize(f, width, height));
  }

  lemma InterlacedFits(width: U32, height: U32)
    requires 0 < width && 0 < height && MayBeInterlaced(width, height)
    ensures Align(UbwcPlanes(Nv12Ubwc, width, height), PAGE)
         <= Align(Wrap(UbwcPlanes(Nv12Ubwc, width, Half(height)) * 2), PAGE)
  {
    FrameFitsTwoFields(width, height);
    AlignFits(UbwcPlanes(Nv12Ubwc, width, height), UbwcPlanes(Nv12Ubwc, width, Half(height)));
  }

  lemma ProgressiveFits(width: U32, height: U32)
    requires 0 < width && 0 < height
    ensures Align(UbwcPlanes(Nv12Ubwc, width, height), PAGE) <= BufferSize(Nv12Ubwc, width, height)
  {
    if MayBeInterlaced(width, height) { InterlacedFits(width, height); }
  }

  /**
   For every format and every 32-bit width and height, what is used fits what is allocated, and
   both are whole pages. This also covers the progressive use of a buffer sized for two fields.
   */
  lemma UsedFitsBuffer(f: Format, width: U32, height: U32, interlace: bool)
    ensures BufferSizeUsed(f, width, height, interlace) <= BufferSize(f, width, height)
    ensures BufferSizeUsed(f, width, height, interlace) % PAGE == 0 && BufferSize(f, width, height) % PAGE == 0
  {
    BufferIsPages(f, width, height);
    if width != 0 && height != 0 && !interlace && f == Nv12Ubwc {
      PageAligned(UbwcPlanes(f, width, height));
      ProgressiveFits(width, height);
    }
  }

  // ------------------------------------------------------------------------
  // The 10-bit stride
  // ------------------------------------------------------------------------

  const TEN_BIT_WIDTH_MAX := 1_073_741_760

  /**
   A 10-bit line takes 256 bytes for every 192 pixels begun, exactly up to the widest line that
   does not wrap.
   */
  lemma TenBitStride(width: U32)
    ensures YStride(Nv12Bpp10Ubwc, width) == 256 * ((width + 191) / 192) <==> width <= TEN_BIT_WIDTH_MAX
  {
    var c := (width + 191) / 192;
    if width <= TEN_BIT_WIDTH_MAX { NarrowLine(width, c); } else { WideLine(width, c); }
  }

  lemma NarrowLine(width: U32, c: nat)
    requires width <= TEN_BIT_WIDTH_MAX && c == (width + 191) / 192
    ensures YStride(Nv12Bpp10Ubwc, width) == 256 * c
  {
    WrapSmall(width + 191);
    assert Align(width, 192) == 192 * c && c <= 5_592_405;
    WrapSmall(768 * c);
    assert Wrap(Align(width, 192) * 4) / 3 == 256 * c;
    WrapSmall(256 * c + 255);
    assert (256 * c + 255) / 256 == c;
  }

  lemma WideLine(width: U32, c: nat)
    requires width > TEN_BIT_WIDTH_MAX && c == (width + 191) / 192
    ensures YStride(Nv12Bpp10Ubwc, width) < 256 * c
  {
    var stride: int := Align(width, 192);
    var wrapped := Wrap(stride * 4);
    WrappedStride(Wrap(width + 191) / 192);
    assert wrapped <= WORD - 256;
    var packed := wrapped / 3;
    assert packed <= 1_431_655_680;
    AlignMonotone(packed, 1_431_655_680, 256);
    WrapSmall(1_431_655_680 + 255);
    assert Align(1_431_655_680, 256) == 1_431_655_680;
    assert c >= 5_592_406;
  }

  lemma WrappedStride(q: nat)
    requires q * 192 < WORD
    ensures Wrap(q * 192 * 4) <= WORD - 256
  {
    assert q * 192 * 4 == 256 * (3 * q);
  }
}
