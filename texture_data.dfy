/** Conversion of a decoded image into the tightly packed byte buffer that is
    handed to the GPU (StelTexture::convertToGLFormat and
    StelTexture::imageToGLData). */
module TextureData {
  import opened Optional
  import opened Layout

  /** The four upload formats: GL_RGBA, GL_RGB, GL_LUMINANCE, GL_LUMINANCE_ALPHA. */
  datatype Format = RGBA | RGB | Luminance | LuminanceAlpha

  /** The only pixel type ever produced: GL_UNSIGNED_BYTE. */
  datatype PixelType = UnsignedByte

  /** What the conversion reads from the GL information of the main view. */
  datatype GLInfo = GLInfo(maxTextureSize: int, supportsLuminanceTextures: bool)

  /** A decoded image: its ARGB32 scan lines, top line first, and the two
      properties the image library reports about it. */
  datatype Image =
    | NullImage
    | Image(width: nat, height: nat, scanLines: seq<seq<bv32>>, grayscale: bool, hasAlpha: bool)

  /** The result of decoding plus conversion, as it travels from the loader
      thread to the upload. A default-constructed value has no data, no
      format and no type. */
  datatype GLData = GLData(
    data: seq<bv8>,
    format: Option<Format>,
    pixelType: Option<PixelType>,
    width: int,
    height: int,
    loaderError: string)

  const EmptyGLData := GLData([], None, None, 0, 0, "")

  /** `grid` has exactly `h` scan lines of `w` pixels each. */
  predicate IsGrid(grid: seq<seq<bv32>>, w: nat, h: nat)
  {
    |grid| == h && Rect(grid, w)
  }

  predicate WellFormed(image: Image)
  {
    image.Image? ==> IsGrid(image.scanLines, image.width, image.height)
  }

  // Channels of an ARGB32 pixel 0xAARRGGBB.
  function Alpha(p: bv32): bv8 { ((p >> 24) & 0xFF) as bv8 }
  function Red(p: bv32): bv8 { ((p >> 16) & 0xFF) as bv8 }
  function Green(p: bv32): bv8 { ((p >> 8) & 0xFF) as bv8 }
  function Blue(p: bv32): bv8 { (p & 0xFF) as bv8 }

  /** The ARGB32 pixel with the given channels. */
  function Pixel(a: bv8, r: bv8, g: bv8, b: bv8): (p: bv32)
    ensures Alpha(p) == a && Red(p) == r && Green(p) == g && Blue(p) == b
  {
    (a as bv32 << 24) | (r as bv32 << 16) | (g as bv32 << 8) | b as bv32
  }

  /** Bytes per pixel of each upload format. */
  function Bpp(f: Format): (n: nat)
    ensures 1 <= n <= 4
  {
    match f
    case LuminanceAlpha => 2
    case Luminance => 1
    case RGBA => 4
    case RGB => 3
  }

  /** The bytes one pixel contributes to the buffer: the pixel is read in
      big-endian order (A, R, G, B) and the format picks channels from it. */
  function PixelBytes(p: bv32, f: Format): (bytes: seq<bv8>)
    ensures |bytes| == Bpp(f)
    ensures bytes[0] == Red(p)
    ensures f != Luminance ==> bytes[|bytes| - 1] == (if f == RGB then Blue(p) else Alpha(p))
  {
    match f
    case RGBA => [Red(p), Green(p), Blue(p)] + [Alpha(p)]
    case RGB => [Red(p), Green(p), Blue(p)]
    case Luminance => [Red(p)]
    case LuminanceAlpha => [Red(p)] + [Alpha(p)]
  }

  /** The upload format chosen from the image's properties. */
  function SelectFormat(supportsLuminance: bool, grayscale: bool, hasAlpha: bool): (f: Format)
    ensures (f == Luminance || f == LuminanceAlpha) <==> supportsLuminance && grayscale
    ensures (f == RGBA || f == LuminanceAlpha) <==> hasAlpha
  {
    if supportsLuminance && grayscale then
      (if hasAlpha then LuminanceAlpha else Luminance)
    else if hasAlpha then RGBA
    else RGB
  }

  /** One target dimension: the image size divided by the decimation factor,
      capped at the maximum texture size. It is the largest value that is
      both within the cap and at most `size / decimate`. */
  function TargetDimension(size: nat, decimate: int, maxTextureSize: int): (d: nat)
    requires decimate >= 1 && maxTextureSize >= 0
    ensures d <= maxTextureSize && d * decimate <= size
    ensures d == maxTextureSize || size < (d + 1) * decimate
  {
    var q := size / decimate;
    if q < maxTextureSize then q else maxTextureSize
  }

  /** The image is usable by the conversion: it is well formed, the
      decimation divides, and whenever the target size differs from the
      image size the library's rescaled image has exactly the target size. */
  predicate CanConvert(image: Image, decimate: int, info: GLInfo, rescaled: Image)
  {
    image.Image? && WellFormed(image) && decimate >= 1 && info.maxTextureSize >= 0 &&
    var w := TargetDimension(image.width, decimate, info.maxTextureSize);
    var h := TargetDimension(image.height, decimate, info.maxTextureSize);
    (w != image.width || h != image.height) ==>
      rescaled.Image? && WellFormed(rescaled) && rescaled.width == w && rescaled.height == h
  }

  /** The image whose pixels are converted: the input itself when it already
      has the target size, the rescaled image otherwise. */
  function Resized(image: Image, decimate: int, info: GLInfo, rescaled: Image): (src: Image)
    requires CanConvert(image, decimate, info, rescaled)
    ensures src.Image? && WellFormed(src)
    ensures src.width == TargetDimension(image.width, decimate, info.maxTextureSize)
    ensures src.height == TargetDimension(image.height, decimate, info.maxTextureSize)
  {
    var w := TargetDimension(image.width, decimate, info.maxTextureSize);
    var h := TargetDimension(image.height, decimate, info.maxTextureSize);
    if w != image.width || h != image.height then rescaled else image
  }

  /** A pixel's bytes and their decoding, as functions for the generic layout. */
  function Encoder(f: Format): bv32 -> seq<bv8>
  {
    p => PixelBytes(p, f)
  }

  function Decoder(f: Format): seq<bv8> -> bv32
  {
    bytes => DecodePixel(bytes, f)
  }

  lemma EncoderFixed(f: Format)
    ensures Fixed(Encoder(f), Bpp(f))
  {
  }

  /** The bytes of one scan line, left to right. */
  function RowBytes(row: seq<bv32>, f: Format): seq<bv8>
  {
    PackLine(row, Encoder(f))
  }

  /** A scan line contributes `Bpp` bytes per pixel. */
  lemma RowBytesLength(row: seq<bv32>, f: Format)
    ensures |RowBytes(row, f)| == |row| * Bpp(f)
  {
    EncoderFixed(f);
    PackLineLength(row, Encoder(f), Bpp(f));
    MulIsProduct(|row|, Bpp(f));
  }

  /** The whole buffer: bottom scan line first, since the image is flipped
      over y. */
  function Packed(grid: seq<seq<bv32>>, f: Format): seq<bv8>
  {
    PackGrid(grid, Encoder(f))
  }

  /** Appending the pixel at `x` extends a scan line's bytes by that pixel's bytes. */
  lemma RowBytesStep(row: seq<bv32>, x: nat, f: Format)
    requires x < |row|
    ensures RowBytes(row[..x + 1], f) == RowBytes(row[..x], f) + PixelBytes(row[x], f)
  {
    PackLineStep(row, x, Encoder(f));
  }

  /** The loop step of the packing: a buffer ending in the bytes of a line's
      first `x` pixels, extended by the bytes of pixel `x`. */
  lemma AppendPixel(done: seq<bv8>, row: seq<bv32>, x: nat, f: Format)
    requires x < |row|
    ensures done + RowBytes(row[..x], f) + PixelBytes(row[x], f) == done + RowBytes(row[..x + 1], f)
  {
    RowBytesStep(row, x, f);
  }

  /** Adding a scan line above the others appends its bytes at the end. */
  lemma PackedStep(grid: seq<seq<bv32>>, i: nat, f: Format)
    requires i < |grid|
    ensures Packed(grid[i..], f) == Packed(grid[i + 1..], f) + RowBytes(grid[i], f)
  {
    PackGridStep(grid, i, Encoder(f));
  }

  /** The buffer holds `width * height * Bpp` bytes. */
  lemma PackedSize(grid: seq<seq<bv32>>, w: nat, f: Format)
    requires IsGrid(grid, w, |grid|)
    ensures |Packed(grid, f)| == w * |grid| * Bpp(f)
  {
    EncoderFixed(f);
    PackGridLength(grid, w, Encoder(f), Bpp(f));
    GridSize(w, |grid|, Bpp(f));
  }

  /** The offset of byte `k` of pixel `x` in row `r` of a tightly packed
      buffer of `w` pixels of `c` bytes per row. */
  function PixelOffset(r: nat, w: nat, x: nat, c: nat, k: nat): nat
  {
    (r * w + x) * c + k
  }

  /** Byte `k` of pixel `x` in output row `r` is byte `k` of what pixel `x`
      of scan line `h - 1 - r` contributes: the buffer is the image flipped
      over y, tightly packed. */
  lemma PackedPixel(grid: seq<seq<bv32>>, w: nat, f: Format, r: nat, x: nat, k: nat)
    requires IsGrid(grid, w, |grid|)
    requires r < |grid| && x < w && k < Bpp(f)
    ensures var i := PixelOffset(r, w, x, Bpp(f), k);
      i < |Packed(grid, f)| && Packed(grid, f)[i] == PixelBytes(grid[|grid| - 1 - r][x], f)[k]
  {
    EncoderFixed(f);
    PackGridAt(grid, w, Encoder(f), Bpp(f), r, x, k);
    SlotOffset(w, Bpp(f), r, x);
  }

  /** The pixel rebuilt from the bytes one format keeps of it: a missing
      alpha is opaque, a luminance byte stands for all three colours. */
  function DecodePixel(bytes: seq<bv8>, f: Format): bv32
  {
    if |bytes| != Bpp(f) then 0 else
    match f
    case RGBA => Pixel(bytes[3], bytes[0], bytes[1], bytes[2])
    case RGB => Pixel(0xFF, bytes[0], bytes[1], bytes[2])
    case Luminance => Pixel(0xFF, bytes[0], bytes[0], bytes[0])
    case LuminanceAlpha => Pixel(bytes[1], bytes[0], bytes[0], bytes[0])
  }

  /** The pixel carries nothing the format drops. */
  predicate Lossless(p: bv32, f: Format)
  {
    match f
    case RGBA => true
    case RGB => Alpha(p) == 0xFF
    case Luminance => Red(p) == Green(p) == Blue(p) && Alpha(p) == 0xFF
    case LuminanceAlpha => Red(p) == Green(p) == Blue(p)
  }

  lemma PixelFromChannels(p: bv32)
    ensures Pixel(Alpha(p), Red(p), Green(p), Blue(p)) == p
  {
  }

  /** Two pixels with the same four channels are the same pixel. */
  lemma SameChannels(p: bv32, q: bv32)
    requires Alpha(p) == Alpha(q) && Red(p) == Red(q) && Green(p) == Green(q) && Blue(p) == Blue(q)
    ensures p == q
  {
    PixelFromChannels(p);
    PixelFromChannels(q);
  }

  /** Rebuilding from the channels a format keeps gives the pixel back
      exactly when the dropped channels hold what rebuilding puts there. */
  lemma RebuildOpaque(p: bv32)
    ensures Pixel(0xFF, Red(p), Green(p), Blue(p)) == p <==> Alpha(p) == 0xFF
  {
    if Alpha(p) == 0xFF { SameChannels(p, Pixel(0xFF, Red(p), Green(p), Blue(p))); }
  }

  lemma RebuildGray(p: bv32, a: bv8)
    ensures Pixel(a, Red(p), Red(p), Red(p)) == p <==> Alpha(p) == a && Red(p) == Green(p) == Blue(p)
  {
    if Alpha(p) == a && Red(p) == Green(p) == Blue(p) { SameChannels(p, Pixel(a, Red(p), Red(p), Red(p))); }
  }

  /** Decoding a pixel's bytes rebuilds it from the channels the format
      kept; each lemma below says when that gives the pixel back. */
  lemma DecodeRgba(p: bv32)
    ensures DecodePixel(PixelBytes(p, RGBA), RGBA) == p
  {
    assert PixelBytes(p, RGBA) == [Red(p), Green(p), Blue(p), Alpha(p)];
    PixelFromChannels(p);
  }

  lemma DecodeRgb(p: bv32)
    ensures DecodePixel(PixelBytes(p, RGB), RGB) == p <==> Alpha(p) == 0xFF
  {
    assert PixelBytes(p, RGB) == [Red(p), Green(p), Blue(p)];
    RebuildOpaque(p);
  }

  lemma DecodeLuminance(p: bv32)
    ensures DecodePixel(PixelBytes(p, Luminance), Luminance) == p <==>
      Alpha(p) == 0xFF && Red(p) == Green(p) == Blue(p)
  {
    assert PixelBytes(p, Luminance) == [Red(p)];
    RebuildGray(p, 0xFF);
  }

  lemma DecodeLuminanceAlpha(p: bv32)
    ensures DecodePixel(PixelBytes(p, LuminanceAlpha), LuminanceAlpha) == p <==> Red(p) == Green(p) == Blue(p)
  {
    assert PixelBytes(p, LuminanceAlpha) == [Red(p), Alpha(p)];
    RebuildGray(p, Alpha(p));
  }

  /** Encoding one pixel and decoding it again gives it back exactly when it
      is lossless for the format. */
  lemma DecodePixelBytes(p: bv32, f: Format)
    ensures DecodePixel(PixelBytes(p, f), f) == p <==> Lossless(p, f)
  {
    match f
    case RGBA => DecodeRgba(p);
    case RGB => DecodeRgb(p);
    case Luminance => DecodeLuminance(p);
    case LuminanceAlpha => DecodeLuminanceAlpha(p);
  }

  /** The image read back from a packed buffer of `w` by `h` pixels: pixel
      `x` of scan line `y` is decoded from its slot in output row `h - 1 - y`. */
  function Unpacked(bytes: seq<bv8>, w: nat, h: nat, f: Format): (grid: seq<seq<bv32>>)
    requires |bytes| == w * h * Bpp(f)
    ensures IsGrid(grid, w, h)
  {
    GridSize(w, h, Bpp(f));
    UnpackGrid(bytes, w, h, Bpp(f), Decoder(f))
  }

  predicate AllLossless(grid: seq<seq<bv32>>, f: Format)
  {
    forall y, x :: 0 <= y < |grid| && 0 <= x < |grid[y]| ==> Lossless(grid[y][x], f)
  }

  /** Reading the packed buffer back gives the image again when no pixel
      carries a channel the format drops. */
  lemma UnpackPacked(grid: seq<seq<bv32>>, w: nat, f: Format)
    requires IsGrid(grid, w, |grid|) && AllLossless(grid, f)
    ensures |Packed(grid, f)| == w * |grid| * Bpp(f)
    ensures Unpacked(Packed(grid, f), w, |grid|, f) == grid
  {
    forall y, x | 0 <= y < |grid| && 0 <= x < |grid[y]|
      ensures Decoder(f)(Encoder(f)(grid[y][x])) == grid[y][x]
    {
      DecodePixelBytes(grid[y][x], f);
    }
    EncoderFixed(f);
    UnpackPackGrid(grid, w, Encoder(f), Bpp(f), Decoder(f));
    PackedSize(grid, w, f);
  }

  /** When the image's properties are truthful (a grayscale image has equal
      colour channels, an image without alpha is opaque), the format chosen
      for it drops nothing, whether or not luminance textures are supported. */
  lemma SelectedFormatLossless(grid: seq<seq<bv32>>, supportsLuminance: bool, grayscale: bool, hasAlpha: bool)
    requires grayscale ==> forall y, x :: 0 <= y < |grid| && 0 <= x < |grid[y]| ==>
      Red(grid[y][x]) == Green(grid[y][x]) == Blue(grid[y][x])
    requires !hasAlpha ==> forall y, x :: 0 <= y < |grid| && 0 <= x < |grid[y]| ==> Alpha(grid[y][x]) == 0xFF
    ensures AllLossless(grid, SelectFormat(supportsLuminance, grayscale, hasAlpha))
  {
    var f := SelectFormat(supportsLuminance, grayscale, hasAlpha);
    forall y, x | 0 <= y < |grid| && 0 <= x < |grid[y]|
      ensures Lossless(grid[y][x], f)
    {
    }
  }

  /** convertToGLFormat: computes the target size, picks the format, and
      packs the (rescaled) image's scan lines from the bottom one up. */
  method ConvertToGLFormat(image: Image, decimate: int, info: GLInfo, rescaled: Image)
    returns (data: seq<bv8>, format: Format, pixelType: PixelType, width: nat, height: nat)
    requires CanConvert(image, decimate, info, rescaled)
    ensures width == TargetDimension(image.width, decimate, info.maxTextureSize)
    ensures height == TargetDimension(image.height, decimate, info.maxTextureSize)
    ensures var src := Resized(image, decimate, info, rescaled);
      format == SelectFormat(info.supportsLuminanceTextures, src.grayscale, src.hasAlpha) &&
      data == Packed(src.scanLines, format)
    ensures pixelType == UnsignedByte
    ensures |data| == width * height * Bpp(format)
  {
    width := TargetDimension(image.width, decimate, info.maxTextureSize);
    height := TargetDimension(image.height, decimate, info.maxTextureSize);
    var src := image;
    if width != image.width || height != image.height {
      src := rescaled;
    }
    if info.supportsLuminanceTextures && src.grayscale {
      format := if src.hasAlpha then LuminanceAlpha else Luminance;
    } else if src.hasAlpha {
      format := RGBA;
    } else {
      format := RGB;
    }
    pixelType := UnsignedByte;
    data := PackScanLines(src.scanLines, width, height, format);
  }

  /** The conversion loop of convertToGLFormat: scan lines from the last one
      up to the first, pixels left to right, each appending the bytes its
      format keeps. */
  method PackScanLines(lines: seq<seq<bv32>>, width: nat, height: nat, format: Format) returns (data: seq<bv8>)
    requires IsGrid(lines, width, height)
    ensures data == Packed(lines, format)
    ensures |data| == width * height * Bpp(format)
  {
    data := [];
    var i: int := height - 1;
    while i >= 0
      invariant -1 <= i < height
      invariant data == Packed(lines[i + 1..], format)
      decreases i
    {
      data := PackScanLine(data, lines[i], format);
      PackedStep(lines, i, format);
      i := i - 1;
    }
    assert lines[0..] == lines;
    PackedSize(lines, width, format);
  }

  /** The inner loop of the conversion: appends the bytes of one scan line,
      pixel by pixel, to the buffer. */
  method PackScanLine(buffer: seq<bv8>, row: seq<bv32>, format: Format) returns (data: seq<bv8>)
    ensures data == buffer + RowBytes(row, format)
  {
    data := buffer;
    var x := 0;
    while x < |row|
      invariant 0 <= x <= |row|
      invariant data == buffer + RowBytes(row[..x], format)
    {
      var p := row[x];
      var bytes := PixelBytes(p, format);
      AppendPixel(buffer, row, x, format);
      data := data + bytes;
      x := x + 1;
    }
    assert row[..x] == row;
  }

  /** imageToGLData: a null image gives an empty result; any other image is
      converted and its size, format and type recorded. */
  method ImageToGLData(image: Image, decimateBy: int, info: GLInfo, rescaled: Image) returns (ret: GLData)
    requires image.Image? ==> CanConvert(image, decimateBy, info, rescaled)
    ensures image.NullImage? ==> ret == EmptyGLData
    ensures image.Image? ==>
      var src := Resized(image, decimateBy, info, rescaled);
      var f := SelectFormat(info.supportsLuminanceTextures, src.grayscale, src.hasAlpha);
      ret.format == Some(f) && ret.pixelType == Some(UnsignedByte) &&
      ret.width == src.width && ret.height == src.height &&
      ret.data == Packed(src.scanLines, f) && ret.loaderError == ""
    ensures image.Image? ==> |ret.data| == ret.width * ret.height * Bpp(ret.format.value)
  {
    ret := EmptyGLData;
    if image.NullImage? {
      return;
    }
    var data, format, pixelType, width, height := ConvertToGLFormat(image, decimateBy, info, rescaled);
    ret := ret.(data := data, format := Some(format), pixelType := Some(pixelType), width := width, height := height);
  }
}
