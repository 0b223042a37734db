# StelTexture in Dafny

A model of Stellarium's texture object (`StelTexture`) and the part of the
texture manager (`StelTextureMgr`) it updates. It covers three things.

- **Conversion** (`TextureData`): how a decoded image is turned into the
  tightly packed buffer handed to the GPU (`convertToGLFormat`,
  `imageToGLData`).
  - The target size is the image size divided by the decimation factor,
    capped at the maximum texture size.
  - The upload format is one of RGBA, RGB, luminance or luminance-alpha.
  - Each ARGB32 pixel contributes the bytes its format keeps, read in
    big-endian order.
  - The scan lines are written from the bottom one up, so the image is
    flipped over y.
- **Loading life cycle** (`TextureState`): `load`, `onNetworkReply`,
  `bind`, `waitForLoaded`, `reportError`, `glLoad`, `getDimensions` and the
  destructor, as methods of a `Texture` class whose fields they update.
  - A texture either fetches its file over the network or starts an
    asynchronous loader.
  - Once the loader has finished, the texture uploads the result, gets a
    GL name and registers itself with the manager.
- **Memory accounting** (`TextureMemory`, and `TextureMgr` in
  `TextureState`).
  - Each uploaded texture is charged its data size, with the mipmap
    overhead when mipmaps are generated.
  - The manager keeps the running total of all charges.
  - Deleting a texture takes its charge off again.

The GL context, the network, the loader thread pool and the image library
appear only as values passed in.
- A `GLContext` carries `GL_MAX_TEXTURE_SIZE`, the name `glGenTextures`
  returns, the maximum anisotropy and the configured anisotropy level.
- A `ReplyOutcome` is what a finished network reply reports.
- `DecodeCompletes` is the loader thread finishing.
- `rescaled` is the library's rescaled image.
- `isTexture` is the answer of `glIsTexture`.

Modules:
- `Optional`: the option type.
- `Layout`: concatenation of equal-sized pieces, packing a grid of items
  bottom line first and reading it back, for any per-item encoding of fixed
  size, and a recursive product `Mul` that keeps offset arithmetic linear.
- `Text`: case-insensitive prefix test and decimal formatting.
- `TextureData`, `TextureMemory`, `TextureState`: the three parts above.

## Model

| member | source | states |
|---|---|---|
| TextureData.TargetDimension | src/core/StelTexture.cpp:335-336 | each target dimension is `min(size / decimate, maxTextureSize)`: within the cap, no larger than `size / decimate`, and either the cap or the largest such value |
| TextureData.SelectFormat | src/core/StelTexture.cpp:352-361 | a luminance format is chosen exactly when luminance textures are supported and the image is grayscale; a format with alpha exactly when the image has an alpha channel |
| TextureData.Bpp | src/core/StelTexture.cpp:363-366 | bytes per pixel lie between 1 and 4 (2 for luminance-alpha, 1 for luminance, 4 for RGBA, 3 for RGB) |
| TextureData.PixelBytes | src/core/StelTexture.cpp:379-396 | one pixel contributes `Bpp` bytes; the first is always its red channel; the last is blue for RGB and alpha for RGBA and luminance-alpha |
| TextureData.Pixel | src/core/StelTexture.cpp:379-380 | the ARGB32 pixel built from four channels has exactly those channels at bits 24, 16, 8 and 0 |
| TextureData.Resized | src/core/StelTexture.cpp:342-350 | the image converted is well formed and has exactly the target size: the input when its size already matches, the rescaled image otherwise |
| TextureData.ConvertToGLFormat | src/core/StelTexture.cpp:331-403 | the width and height returned are the target dimensions; the format is the one selected from the converted image; the type is unsigned byte; the buffer is the packed image and holds `width * height * Bpp` bytes |
| TextureData.PackScanLines | src/core/StelTexture.cpp:374-401 | the loop over scan lines, last line first, builds exactly the packed image, of `width * height * Bpp` bytes |
| TextureData.PackScanLine | src/core/StelTexture.cpp:376-400 | the loop over one scan line appends exactly that line's bytes, pixel by pixel from left to right |
| TextureData.PackedSize | src/core/StelTexture.cpp:363-401 | the packed buffer holds `width * height * Bpp` bytes |
| TextureData.PackedPixel | src/core/StelTexture.cpp:374-396 | byte `k` of pixel `x` in output row `r` sits at offset `(r * width + x) * Bpp + k` and is byte `k` of what pixel `x` of scan line `height - 1 - r` contributes (flip over y, tight packing, channel order) |
| Layout.PackGridAt | src/core/StelTexture.cpp:374-396 | the same placement for any encoding that gives every pixel the same number of bytes, stated with the recursive row and pixel offsets |
| TextureData.RowBytes | src/core/StelTexture.cpp:377-396 | one scan line's bytes are its pixels' bytes left to right |
| TextureData.RowBytesLength | src/core/StelTexture.cpp:368-396 | a scan line contributes `|row| * Bpp` bytes |
| TextureData.Packed | src/core/StelTexture.cpp:374-401 | the buffer as the conversion defines it: the scan lines' bytes from the bottom line up |
| TextureData.PackedStep | src/core/StelTexture.cpp:374-376 | converting one more scan line above the others appends its bytes after theirs |
| TextureData.RowBytesStep | src/core/StelTexture.cpp:377-396 | converting one more pixel of a line appends that pixel's bytes |
| TextureData.DecodePixelBytes | src/core/StelTexture.cpp:379-396 | decoding a pixel's bytes gives the pixel back exactly when the format drops nothing it carries |
| Layout.UnpackPackGrid | src/core/StelTexture.cpp:374-401 | for any such encoding, reading a packed image back from the bottom row up gives it again whenever decoding undoes each pixel's encoding |
| TextureData.UnpackPacked | src/core/StelTexture.cpp:374-401 | reading the packed buffer back row by row from the bottom gives the image again whenever no pixel is lossy for the format |
| TextureData.SelectedFormatLossless | src/core/StelTexture.cpp:352-361 | if the image's grayscale and alpha flags are truthful, the selected format loses nothing, so the conversion can be inverted |
| TextureData.Unpacked | src/core/StelTexture.cpp:374-396 | the image read back from a buffer of `w * h * Bpp` bytes has `h` lines of `w` pixels |
| TextureData.ImageToGLData | src/core/StelTexture.cpp:134-141 | a null image gives the default, empty data; any other image gives the converted buffer, its format, type and size, and no loader error |
| TextureMemory.GlSize | src/core/StelTexture.cpp:471-500 | the charge is the data size without mipmaps, four times it with anisotropic filtering, otherwise the data plus a third of it (rounded down); it always lies between the data size and four times it |
| TextureMemory.GlSizeAsWritten | src/core/StelTexture.cpp:471-500 | the same charge in 32-bit unsigned arithmetic, after the `uint` cast keeps the byte count modulo 2^32, is always below 2^32; without mipmaps it is the byte count modulo 2^32 |
| TextureMemory.GlSizeAsWrittenWraps | src/core/StelTexture.cpp:471-500 | for a byte count below 2^32, the 32-bit charge is the intended charge modulo 2^32, and equals it exactly when the intended charge is below 2^32 |
| TextureMemory.LargestRgbaTextureChargedNothing | src/core/StelTexture.cpp:495 | a 16384 x 16384 RGBA texture with mipmaps and anisotropy is charged 0 as written instead of 2^32 bytes |
| TextureMemory.LargerBufferTruncated | src/core/StelTexture.cpp:471 | with 64-bit byte counts, a 32768 x 32768 RGBA texture without mipmaps (2^32 bytes) is charged 0 as written instead of 2^32 bytes |
| TextureMemory.TotalRemove | src/core/StelTexture.cpp:77-78 | taking one texture's charge off the total leaves the total of the other textures |
| TextureMemory.TotalInsert | src/core/StelTexture.cpp:505-506 | registering a new texture adds exactly its charge to the total |
| TextureMemory.TotalReplace | src/core/StelTexture.cpp:505-506 | registering a name again replaces its old charge by the new one in the sum over registered names |
| Text.NatToStringDecimal | src/core/StelTexture.cpp:431-432 | the text of every natural number is digits only, reads back as that number most significant digit first, and starts with '0' exactly when the number is 0, as `QString::arg` writes an integer |
| Text.IntToStringDecimal | src/core/StelTexture.cpp:431-432 | the text of every integer starts with '-' exactly when it is negative; the rest is the plain decimal text of its magnitude, with no leading zero |
| Text.DecimalText | src/core/StelTexture.cpp:431-432 | two sample values: 16384 is written "16384" and -1 is written "-1" |
| Text.StartsWithIgnoringCase | src/core/StelTexture.cpp:265-266 | the prefix test holds exactly when the prefix is no longer than the string and agrees with its start letter by letter, ignoring case |
| TextureState.TextureMgr.Add | src/core/StelTexture.cpp:505-506 | the total grows by the new charge and the name maps to the texture, replacing any entry under that name; a replaced entry's charge stays in the total as orphaned; the invariant (total = sum of registered charges + orphaned charges) is kept |
| TextureState.TextureMgr.Remove | src/core/StelTexture.cpp:77-78 | the total shrinks by the removed charge, the name is unregistered, orphaned charges are untouched, and the invariant is kept |
| TextureState.FrameBudget | src/core/StelTexture.cpp:44 | the per-frame load budget `MaxLoadNanosecPerFrame` is 1e9 / 120 nanoseconds rounded down |
| TextureState.IsRemote | src/core/StelTexture.cpp:264-266 | a path is remote when it starts with `http` or `file://`, ignoring case |
| TextureState.RemotePaths | src/core/StelTexture.cpp:264-266 | any case of `http` (so `https` too) and of `file://` is remote; a path that only contains `http` later, or is shorter than the prefix, is local |
| TextureState.EmptyResultMessage | src/core/StelTexture.cpp:297 | the empty-result message is its fixed 31-character text followed by the URL |
| TextureState.TooLargeMessage | src/core/StelTexture.cpp:431-432 | the too-large message with width, height and maximum size in decimal |
| TextureState.HasAlpha | src/core/StelTexture.cpp:447-462 | the texture has an alpha channel exactly for RGBA and luminance-alpha data |
| TextureState.Texture.constructor | src/core/StelTexture.cpp:48-53 | a new texture has no loader, no request, no name, no charge, no error and an unknown size (-1) |
| TextureState.Texture.ReportError | src/core/StelTexture.cpp:126-132 | the error flag is set, the message recorded and a failure signal sent; nothing else changes |
| TextureState.Texture.StartAsyncLoader | src/core/StelTexture.cpp:252-259 | a loader is started on the job exactly when the manager still exists |
| TextureState.Texture.DecodeCompletes | src/core/StelTexture.cpp:256-257 | the loader's future finishes with its result; its job and every other field are unchanged, and the invariant is kept |
| TextureState.Texture.Load | src/core/StelTexture.cpp:261-288 | a remote path (`http` or `file://`, any case) with nothing in progress starts a request; otherwise, with nothing in progress, a loader starts on the path; the result is true exactly when the loader has finished; loader and request are never both set |
| TextureState.Texture.OnNetworkReply | src/core/StelTexture.cpp:290-307 | a successful non-empty reply starts a loader on its body; an empty body reports "Empty result received for URL: " followed by the URL the reply reports; a failed reply reports its error string; the request is cleared in every case |
| TextureState.Texture.GlLoad | src/core/StelTexture.cpp:405-518 | with no manager nothing happens; empty data reports its loader error or "Unknown error"; data wider or taller than the maximum texture size records its size and reports the too-large message; otherwise the texture gets the new name, the alpha flag for RGBA and luminance-alpha, and its charge; the manager's total grows by that charge and the name is registered, replacing any entry under it; true exactly on success |
| TextureState.Texture.Upload | src/core/StelTexture.cpp:436-506 | the successful part of the upload: new name, alpha flag, charge, manager total and registration, success signal |
| TextureState.Texture.Bind | src/core/StelTexture.cpp:198-232 | true exactly when the texture then has a name; an uploaded texture and a failed one are left alone; an unfinished one advances its loading; a finished one waits while the frame's load-time budget (1e9/120 ns) is spent, and otherwise is uploaded and loses its loader; the manager changes only on a successful upload |
| TextureState.Texture.WaitForLoaded | src/core/StelTexture.cpp:234-249 | with a loader, its result (once finished) is uploaded and the loader dropped; without one nothing changes |
| TextureState.Texture.Destroy | src/core/StelTexture.cpp:55-103 | with no manager nothing is touched; otherwise a valid named texture's charge is taken off the total and its name unregistered (an invalid one stays registered and charged); a pending request is aborted, and when the abort delivers the reply it is reported as "Operation canceled" with a failure signal; the name, request and loader are cleared |
| TextureState.Texture.AbortRequest | src/core/StelTexture.cpp:92-97 | a pending request is cleared; when the abort delivers the reply, the error flag is set, the message is "Operation canceled" and a failure signal is sent, and otherwise nothing is reported; without a request nothing changes |
| TextureState.Texture.GetDimensions | src/core/StelTexture.cpp:312-329 | a known size is returned as is; an unknown one is read from the file when it can be read, and the call fails otherwise |
| TextureState.UploadThenDestroy | src/core/StelTexture.cpp:55-103 | uploading a texture under a name not registered yet and then deleting it leaves the manager's total and name map as they were |
| TextureState.StaleNameReused | src/core/StelTexture.cpp:505-506 | a texture found invalid on deletion stays registered; when its name is handed to another texture, the map leads to the new one while the total counts both charges |

## Left out

- The OpenGL calls themselves are not modelled: binding, texture parameters, unpack alignment, pixel transfer and mipmap generation. Only the values they return or are given appear.
- The slot number passed to `bind` is not modelled.
- Image decoding (`loadFromPath`, `loadFromData` and their exception handlers) is not modelled. The loader's result is a parameter, and an error it carries reaches `glLoad` as `loaderError`.
- Rescaling (`QImage::scaled`) is not modelled. The rescaled image is a parameter that must have the target size.
- The conversion to ARGB32 (`convertToFormat`) is not modelled. Scan lines are taken to be ARGB32 already.
- The image library's grayscale and alpha-channel answers are parameters.
- The network request itself is reduced to the URL and the reply's outcome. The user agent and cache control are not modelled.
- Threading is not modelled. The loader finishing is the separate step `DecodeCompletes`, and `waitForLoaded` receives the result it would block for.
- Logging, debug output and the `Q_ASSERT` checks are not modelled. Where an assertion states an invariant, that invariant is part of `Texture.Valid`: a loader and a network request are never both present.
- Settings, the GL information singleton and the frame clock are parameters. The total load time spent in the frame is the `loadTimeTaken` argument of `Bind`.
- TextureData.TargetDimension: requires a decimation factor of at least 1 and a non-negative maximum texture size. The source divides by the factor with no check, and a zero factor is undefined behaviour there.
- TextureData.ConvertToGLFormat: requires a well-formed image and a correctly sized rescaled image, as the image library guarantees.
- TextureData.ConvertToGLFormat: the nested conversion loop is split into `PackScanLines` (over lines) and `PackScanLine` (over pixels). The buffer is a sequence rather than a reserved byte array.
- TextureMemory.GlSize: the charge is modelled in unbounded integers (the intended behaviour). The 32-bit unsigned arithmetic of the source is modelled separately by `GlSizeAsWritten`; see Findings.
- The anisotropy level is read from the settings as unsigned and stored in a signed `GLint`. It is modelled as an integer, so values of 2^31 or more (negative in the source) are not distinguished.
- The manager's `glMemoryUsage` is an unbounded integer. Its width is declared in a header that is not part of this model.
- `getTotalLoadTimeTaken`, `reportTextureLoadStart` and `reportTextureLoadEnd` of the manager are not modelled beyond the load-time argument.
- TextureState.Texture.GetDimensions: the file header reader is reduced to whether it can read the file and the size it reports. On failure the returned width and height are unspecified.
- The texture manager is a constant of each texture, either present or absent for the texture's whole life. Its deletion while a texture is alive (the source's guarded pointer going null) is not modelled.
- `wrapGLTexture` is not modelled. It adopts a foreign GL name without charging memory, which is outside the loading life cycle.
- The default values of `GLData` and of a texture's width and height come from a header that is not part of this model. Empty data with no format, and an unknown size of -1, are assumed.
- The URL a reply reports (`QNetworkReply::url`, normalised by `QUrl` or changed by a redirect) is a field of `ReplyOutcome`. It is not computed from the texture's path.
- TextureState.Texture.AbortRequest: whether `abort()` delivers `finished()` at once, so that `onNetworkReply` runs inside the destructor, depends on Qt's handler for the URL scheme: an HTTP(S) reply emits it synchronously, while a `file://` reply may only queue it, and the queued signal is lost when the reply is deleted right after. The model takes this as the parameter `delivered` rather than computing it. The text "Operation canceled" is Qt's error string for `OperationCanceledError`; it is taken as a constant, not read from Qt.
- glGenTextures is assumed only to return a nonzero name (`FreshName`). Whether GL still uses the name is not modelled; the manager's map may still hold it, and then the new entry replaces the old one.
- Text.DecimalText: states two sample values only; the format for all inputs is stated by `Text.NatToStringDecimal` and `Text.IntToStringDecimal`.
- Case-insensitive comparison in `Text.StartsWithIgnoringCase` folds ASCII letters only. The prefixes compared (`http`, `file://`) are ASCII.

## Findings

| source | as written | input that shows it | evidently intended | confidence | as-written member | corrected member |
|---|---|---|---|---|---|---|
| src/core/StelTexture.cpp:471, 495 | `glSize` is a 32-bit `uint`, so `glSize *= 4` wraps modulo 2^32 | a 16384 x 16384 RGBA texture (2^30 bytes) with mipmaps and anisotropic filtering is charged 0 instead of 4 GiB, so `glMemoryUsage` under-reports | the charge is four times the data size, kept in a type wide enough for it | not executed | TextureMemory.LargestRgbaTextureChargedNothing | TextureMemory.GlSize |
| src/core/StelTexture.cpp:471 | `static_cast<uint>(data.data.size())` keeps the byte count modulo 2^32; with the 64-bit sizes of Qt 6 a larger buffer loses its high bits | a 32768 x 32768 RGBA buffer (2^32 bytes) without mipmaps is charged 0 | the charge is the full byte count | not executed | TextureMemory.LargerBufferTruncated | TextureMemory.GlSize |
