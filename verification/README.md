# Image processor: transform geometry, colour maps, naming and upload validation

A Dafny model of the deterministic core of the image-processor service: the
pure helpers of `ImageService` and the validation in
`ImageController.uploadImage`.

- **Resize geometry** (`Resize`): the output dimensions of
  `resizeImageInternal`, which keep the aspect ratio and fit the configured
  box. The aspect-ratio comparison is exact, by cross-multiplication, and
  the free side is the proportional value truncated.
- **Watermark layout** (`Watermark`): the font size `max(w, h) / 20`, the
  position string parsed case-insensitively into five anchors with a
  bottom-right fallback, and the text origin with 10px margins. Java's
  truncating division is used for the centre anchor, and coordinates are not
  clamped. The output is a copy of the raster plus two text layers: a black
  shadow at alpha 128 offset by (+2, +2), then white text at alpha 180.
- **Filters** (`Filters`): the case-insensitive filter switch with its
  grayscale default, the pointwise grayscale and sepia maps over a pixel
  grid, and the `EDGE_NO_OP` edge policy of the blur and sharpen
  convolutions.
- **Pixel packing** (`Pixels`): the `getRGB`/`setRGB` packing of channels
  into a signed 32-bit `int`, and its unpacking with `>>` and `& 0xFF`.
- **Naming** (`Storage`): the ImageIO format name taken from the filename,
  the object key `uuid + "-" + filename`, the URL
  `http://localhost:4566/<bucket>/<key>`, and the put request that
  `uploadImageToS3` builds.
- **Upload validation** (`Controller`): status and `ImageResponse` for an
  empty file, a non-image content type, a successful run and an IOException.
- **Java semantics** (`JavaLang`): `int` division truncating toward zero,
  ASCII `toLowerCase`, `lastIndexOf`, `startsWith` and nullable references.

Some collaborators are passed in as function parameters:

- the text metrics (`measure`);
- the convolution arithmetic inside the edge band (`interior`);
- the encoder `ImageIO.write` (`encode`);
- the random UUID (`uuid`).

The outcome of the image service is passed to `UploadImage` as a value.

Behaviour of the Java code that the model keeps:

- `getFormatName` has no JPEG default: a name without a dot gives the whole
  lower-cased name as its format, because `lastIndexOf` returns -1.
- `resizeImageInternal` has no invalid-dimensions error. A very wide or very
  tall original truncates a side to 0. `Resize.ZeroHeightIff` and
  `Resize.ZeroWidthIff` state exactly when that happens in the exact
  arithmetic of the model; the `(int)` of an inexact double can also
  truncate the width to 0 when `th*ow == oh`.
- `resizeImageInternal` always pins one side to the box, so small images are
  enlarged (`Resize.SmallImagesAreEnlarged`).
- The sepia filter clamps only the upper bound, `Math.min(255, ·)`. The
  weighted sums are never negative.
- `uploadImage` itself rejects empty files and content types other than
  `image/...`.

## Model

| member | source | states |
|---|---|---|
| JavaLang.Quot | image-processor/src/main/java/com/cs6650/imageprocessor/service/ImageService.java:200-202 | Java `/` for a positive divisor: the remainder is smaller than the divisor and has the dividend's sign (rounding toward zero) |
| JavaLang.QuotVersusFloor | image-processor/src/main/java/com/cs6650/imageprocessor/service/ImageService.java:201 | Java division equals floor division for non-negative dividends. For negative inexact ones it is one more |
| JavaLang.ToLower | image-processor/src/main/java/com/cs6650/imageprocessor/service/ImageService.java:187 | lower-casing keeps the length and maps each character through the ASCII case map |
| JavaLang.ToLowerIdempotent | image-processor/src/main/java/com/cs6650/imageprocessor/service/ImageService.java:228 | lower-casing twice is lower-casing once, which makes the string switches case-insensitive |
| JavaLang.LastIndexOf | image-processor/src/main/java/com/cs6650/imageprocessor/service/ImageService.java:382 | the result is -1 or an index holding the character, and no later index holds it |
| Pixels.PackRgb | image-processor/src/main/java/com/cs6650/imageprocessor/service/ImageService.java:267 | the packed value, with red in bits 16-23, green in bits 8-15 and blue in bits 0-7, is non-negative and below 2^24 |
| Pixels.Unpack | image-processor/src/main/java/com/cs6650/imageprocessor/service/ImageService.java:259-261 | the three extracted channels, packed again, give back the low 24 bits of the `int`, so the alpha byte is the only thing dropped |
| Pixels.UnpackArgb | image-processor/src/main/java/com/cs6650/imageprocessor/service/ImageService.java:258-261 | shifting and masking a `getRGB` value returns the pixel's channels for every alpha, including negative `int` values |
| Pixels.UnpackPackRgb | image-processor/src/main/java/com/cs6650/imageprocessor/service/ImageService.java:258-267 | unpacking a packed pixel gives back the pixel |
| Resize.TargetDims | image-processor/src/main/java/com/cs6650/imageprocessor/service/ImageService.java:145-158 | the output fits the box. If the original is relatively wider, the width is pinned, the height stays below the box, and the height is the proportional value rounded down. Otherwise the height is pinned and the width is the proportional value rounded down |
| Resize.EqualAspectFillsBox | image-processor/src/main/java/com/cs6650/imageprocessor/service/ImageService.java:150-157 | in exact arithmetic, equal aspect ratios take the height branch and fill the box exactly |
| Resize.WideImageIntoSquareBox | image-processor/src/main/java/com/cs6650/imageprocessor/service/ImageService.java:150-153 | 200x100 into a 100x100 box gives 100x50 |
| Resize.SmallImagesAreEnlarged | image-processor/src/main/java/com/cs6650/imageprocessor/service/ImageService.java:150-158 | an original smaller than the box in both directions grows in at least one |
| Resize.ZeroHeightIff | image-processor/src/main/java/com/cs6650/imageprocessor/service/ImageService.java:150-153 | the height truncates to 0 if and only if ow / oh exceeds the box width |
| Resize.ZeroWidthIff | image-processor/src/main/java/com/cs6650/imageprocessor/service/ImageService.java:154-157 | in exact arithmetic, the width truncates to 0 if and only if oh / ow exceeds the box height |
| Watermark.FontSize | image-processor/src/main/java/com/cs6650/imageprocessor/service/ImageService.java:179 | the font size is the larger dimension divided by 20, rounded down |
| Watermark.Place | image-processor/src/main/java/com/cs6650/imageprocessor/service/ImageService.java:186-209 | the corner anchors put x at 10 or at width - textWidth - 10, and the baseline y at textHeight + 10 or at height - 10. The centre anchor halves width - textWidth and height + textHeight, rounding toward zero |
| Watermark.PlaceMargins | image-processor/src/main/java/com/cs6650/imageprocessor/service/ImageService.java:187-209 | each corner anchor puts the text box (textWidth to the right of x, textHeight above the baseline y) exactly 10px from its two edges. For the bottom anchors this means the baseline is 10px above the bottom edge. The centre anchor balances opposite gaps to within one pixel |
| Watermark.CenterRoundsTowardZero | image-processor/src/main/java/com/cs6650/imageprocessor/service/ImageService.java:200-202 | centring truncates toward zero. The odd pixel goes right when the text fits and left when the text is wider than the image |
| Watermark.PlaceInsideWhenFits | image-processor/src/main/java/com/cs6650/imageprocessor/service/ImageService.java:187-209 | for every anchor, text that fits with margins has its text box (textHeight above the baseline) at least 10px from every edge |
| Watermark.WideTextIsNotClamped | image-processor/src/main/java/com/cs6650/imageprocessor/service/ImageService.java:192-208 | text wider than the image less the margin gets a negative x when right-anchored |
| Watermark.BottomRightOn200By100 | image-processor/src/main/java/com/cs6650/imageprocessor/service/ImageService.java:204-208 | on 200x100, bottom-right puts the text's right edge at 190 and its baseline at 90 |
| Watermark.ParseAnchorIgnoresCase | image-processor/src/main/java/com/cs6650/imageprocessor/service/ImageService.java:187 | the anchor depends only on the lower-cased position |
| Watermark.ParseAnchor | image-processor/src/main/java/com/cs6650/imageprocessor/service/ImageService.java:187-205 | each of top-left, top-right, bottom-left and center is chosen if and only if the lower-cased position equals its name. Bottom-right is chosen if and only if the position is "bottom-right" or no anchor name, ignoring case |
| Watermark.AddWatermark | image-processor/src/main/java/com/cs6650/imageprocessor/service/ImageService.java:166-222 | the canvas is the original raster, with the same dimensions. The font is bold at `FontSize`. The shadow layer (black, alpha 128, at the text origin plus 2,2) comes before the text layer (white, alpha 180, at the anchor's origin) |
| Pixels.MapPixels | image-processor/src/main/java/com/cs6650/imageprocessor/service/ImageService.java:256-270 | the output has the same rows of the same lengths, and each pixel is the colour map applied to the source pixel at the same position |
| Filters.Luminance | image-processor/src/main/java/com/cs6650/imageprocessor/service/ImageService.java:264 | the gray level lies between the smallest and largest channel, and a gray pixel keeps its level |
| Filters.GrayPixel | image-processor/src/main/java/com/cs6650/imageprocessor/service/ImageService.java:263-267 | the output pixel has R = G = B, within the input's channel range for the per-mille luminance |
| Filters.Clamp | image-processor/src/main/java/com/cs6650/imageprocessor/service/ImageService.java:301-303 | the clamped value is the input or 255, never above the input, and within 0..255 |
| Filters.SepiaPixel | image-processor/src/main/java/com/cs6650/imageprocessor/service/ImageService.java:296-303 | sepia output is warm (R >= G >= B). A channel is 255 if and only if its truncated weighted sum reaches 255, and otherwise equals that sum |
| Filters.RgbStepsMatchPixelMaps | image-processor/src/main/java/com/cs6650/imageprocessor/service/ImageService.java:258-307 | the packed-`int` loop bodies store exactly the recoloured pixel |
| Filters.ApplyGrayscale | image-processor/src/main/java/com/cs6650/imageprocessor/service/ImageService.java:246-273 | the output has the same width and height. Every pixel is gray and carries the luminance of the source pixel |
| Filters.ApplySepia | image-processor/src/main/java/com/cs6650/imageprocessor/service/ImageService.java:278-312 | the output has the same width and height. Every pixel is the sepia map of the source pixel, with channels in 0..255 |
| Filters.GrayscaleFixesGray | image-processor/src/main/java/com/cs6650/imageprocessor/service/ImageService.java:256-270 | grayscale leaves an all-gray image unchanged |
| Filters.GrayscaleIdempotent | image-processor/src/main/java/com/cs6650/imageprocessor/service/ImageService.java:246-273 | applying grayscale twice equals applying it once |
| Filters.SepiaExtremes | image-processor/src/main/java/com/cs6650/imageprocessor/service/ImageService.java:296-303 | black stays black, and white becomes (255, 255, 238) |
| Filters.ConvolveEdgeNoOp | image-processor/src/main/java/com/cs6650/imageprocessor/service/ImageService.java:325-327 | the output has the same width and height. Pixels where the 3x3 kernel does not fit are copied from the source, and the others come from the kernel evaluation |
| Filters.ConvolveKeepsCorners | image-processor/src/main/java/com/cs6650/imageprocessor/service/ImageService.java:317-344 | the four corner pixels are unchanged |
| Filters.ConvolveSmallIsIdentity | image-processor/src/main/java/com/cs6650/imageprocessor/service/ImageService.java:325-327 | an image at most two pixels wide or tall comes back unchanged |
| Filters.ApplyFilter | image-processor/src/main/java/com/cs6650/imageprocessor/service/ImageService.java:227-241 | every filter keeps the image's width and height |
| Filters.ParseFilter | image-processor/src/main/java/com/cs6650/imageprocessor/service/ImageService.java:228-240 | sepia, blur and sharpen are each chosen if and only if the lower-cased name equals theirs. Grayscale is chosen if and only if the name is "grayscale" or no filter name, ignoring case |
| Filters.ParseFilterIgnoresCase | image-processor/src/main/java/com/cs6650/imageprocessor/service/ImageService.java:228 | the filter depends only on the lower-cased name |
| Filters.UnknownFilterIsGrayscale | image-processor/src/main/java/com/cs6650/imageprocessor/service/ImageService.java:237-239 | an unrecognised name gives the same image as "grayscale" |
| Filters.ConvolutionFiltersKeepEdges | image-processor/src/main/java/com/cs6650/imageprocessor/service/ImageService.java:233-236 | blur and sharpen leave every edge pixel unchanged |
| Storage.FormatName | image-processor/src/main/java/com/cs6650/imageprocessor/service/ImageService.java:381-384 | the format is the longest dot-free tail of the filename, lower-cased. It contains no dot and is preceded by a dot unless it is the whole name |
| Storage.FormatOfDottedName | image-processor/src/main/java/com/cs6650/imageprocessor/service/ImageService.java:381-384 | `stem + "." + ext` has format `toLowerCase(ext)` whatever the stem |
| Storage.FormatOfUndottedName | image-processor/src/main/java/com/cs6650/imageprocessor/service/ImageService.java:382-383 | a name without a dot is its own format, lower-cased |
| Storage.ObjectKey | image-processor/src/main/java/com/cs6650/imageprocessor/service/ImageService.java:357 | the key splits back into the UUID, one hyphen, and the filename verbatim |
| Storage.DistinctUuidsGiveDistinctKeys | image-processor/src/main/java/com/cs6650/imageprocessor/service/ImageService.java:357 | different UUID strings give different keys, whatever the filenames |
| Storage.KeyKeepsFormat | image-processor/src/main/java/com/cs6650/imageprocessor/service/ImageService.java:352-357 | for a filename with a dot, the key has the same format name as the filename |
| Storage.ObjectUrl | image-processor/src/main/java/com/cs6650/imageprocessor/service/ImageService.java:372 | the URL splits into the fixed base, the bucket, a slash and the key |
| Storage.UploadImageToS3 | image-processor/src/main/java/com/cs6650/imageprocessor/service/ImageService.java:349-376 | fails if and only if the encoder throws. On success the put and the result share the key, the URL is built from bucket and key, the content type is passed through, and the body is the encoded bytes (empty when no writer exists) |
| Storage.ContentTypeDoesNotSelectFormat | image-processor/src/main/java/com/cs6650/imageprocessor/service/ImageService.java:352-353 | changing the declared content type changes neither the stored bytes nor the result |
| Controller.IsImageType | image-processor/src/main/java/com/cs6650/imageprocessor/controller/ImageController.java:49 | the type passes if and only if it is non-null, has at least six characters, and its first six are exactly "image/" |
| Controller.Render | image-processor/src/main/java/com/cs6650/imageprocessor/controller/ImageController.java:77 | a present message is rendered as itself, and the text "null" results exactly from a null message or the message "null" |
| Controller.UploadImage | image-processor/src/main/java/com/cs6650/imageprocessor/controller/ImageController.java:35-82 | the status is 200, 400 or 500, and success holds exactly on 200. The service is called if and only if the file is non-empty with an `image/` type, and 400 is returned exactly when it is not called. On success the message is "Image processed successfully" and the body carries the URL and the original filename. An IOException gives 500 and "Error processing image: " + message |
| Controller.EmptyFileCheckComesFirst | image-processor/src/main/java/com/cs6650/imageprocessor/controller/ImageController.java:37-45 | empty uploads all get the same reply, whatever the content type, name or service outcome |
| Controller.NonImageRejected | image-processor/src/main/java/com/cs6650/imageprocessor/controller/ImageController.java:48-57 | a non-empty upload with a null or non-`image/` type gets 400 "File must be an image", whatever the service outcome |
| Controller.CapitalisedTypeRejected | image-processor/src/main/java/com/cs6650/imageprocessor/controller/ImageController.java:49 | a content type with a capital letter in any of its first six characters is rejected: the prefix test is case-sensitive |
| Controller.NullMessageRendered | image-processor/src/main/java/com/cs6650/imageprocessor/controller/ImageController.java:72-80 | an IOException with a null message is reported as "Error processing image: null" |

## Left out

- Resize.TargetDims: models exact rational arithmetic. The source compares two double aspect ratios and truncates a double product or quotient. Near-equal ratios, or an exact integer result reached through an inexact double, can differ by one pixel from the model.
- Resize.TargetDims: requires a positive configured box. With a zero box dimension the source divides doubles by zero, and that case is not modelled.
- Filters.Luminance: uses per-mille integer coefficients, `(299r + 587g + 114b) / 1000`, instead of double arithmetic truncated with `(int)`. The idempotence of grayscale rests on this exactness: with doubles, a gray level can come out one less.
- Filters.SepiaPixel: uses per-mille integer coefficients instead of doubles. Float rounding is abstracted away.
- Filters.ConvolveEdgeNoOp: only the edge policy is modelled. Interior pixels come from an uninterpreted `interior` function; the float kernels and ConvolveOp's internal rounding and clamping are not modelled.
- JavaLang.ToLower: covers ASCII letters only. Java's locale- and Unicode-aware `toLowerCase` is not modelled.
- Watermark.Place: uses unbounded integers. Java's 32-bit wrap-around cannot occur for real image and text sizes and is not modelled.
- Scalr resampling and `ImageIO.read`/`ImageIO.write` are opaque library code. Resize is modelled only as target dimensions, and encoding as the `encode` parameter.
- Glyph rendering and AWT font metrics: the measured text extent is the `measure` parameter, and drawing is recorded as ordered text layers.
- Alpha handling of the copy into a `TYPE_INT_RGB` canvas: pixels are modelled as opaque RGB.
- `resizeImage`, `watermarkImage`, `filterImage` and `processImage` read the upload, run one transform and call `uploadImageToS3`. Decoding is not modelled, so these compositions are not modelled either.
- `getImage` and `putObject`: network calls to the object store. `S3Config` is credentials configuration. The put request is built but not sent, and no store is modelled.
- The health endpoint, `GlobalExceptionHandler`, logging and `LocalDateTime.now()` timestamps have no logic to verify.
- UUID generation is random. The UUID string is a parameter.
- The controller assigns the `Map` returned by `processImage` to a `String` (ImageController.java line 60), which does not type-check. The service outcome is therefore an abstract value: an image URL, or an IOException message.
- Exceptions other than IOException (a null image from `ImageIO.read`, an S3 runtime exception) escape `uploadImage` to the exception handler and are not modelled.
- Watermark.PlaceMargins: the text box is taken as textWidth to the right of x and textHeight above the baseline y. `getHeight` includes the descent and leading, so the drawn glyphs do not fill that box, and descenders of bottom-anchored text come within less than 10px of the bottom edge.
- Watermark.PlaceInsideWhenFits: uses the same reading of the text box as `Watermark.PlaceMargins`, so the 10px bound holds for that box and not for descenders below the baseline.
- Watermark.ParseAnchor: takes the position as a non-null string. A null position throws NullPointerException at `toLowerCase` in the source, and that path is not modelled.
- Watermark.AddWatermark: takes the watermark text as a non-null string. A null text throws NullPointerException in `stringWidth`, and that path is not modelled.
- Filters.ParseFilter: takes the filter name as a non-null string. A null name throws NullPointerException at `toLowerCase`, and that path is not modelled.
- Storage.FormatName: takes the filename as a non-null string. A null original filename throws NullPointerException at `lastIndexOf`, and that path is not modelled.
- Controller.UploadImage: the service outcome is a free parameter, so the model also admits combinations the service cannot produce, such as a successful outcome for a file whose original filename is null (the service throws NullPointerException first).
- Filters.GrayscaleFixesGray: holds for the per-mille luminance only. With the source's double arithmetic some gray levels come out one lower (`(int)(0.299*2 + 0.587*2 + 0.114*2)` is 1), so a gray image is not always fixed.
- Filters.GrayscaleIdempotent: holds for the per-mille luminance only. With doubles, a pixel such as (3, 2, 1) becomes gray 2 and then gray 1, so the source's grayscale is not idempotent.
- Resize.ZeroWidthIff: holds for the exact model only. In the source's doubles a 1x850 original into a box 850 high computes `(int)(850 * (1.0 / 850))`, which is `(int)0.9999999999999999` = 0, although `th*ow == oh`; the model gives width 1.
- Resize.EqualAspectFillsBox: holds for the exact model only. In doubles a 3x11 original into a 30x110 box computes `(int)(110 * (3.0 / 11))` = `(int)29.999999999999996` = 29, so the source returns 29x110 where the model gives 30x110.
- Filters.GrayPixel: the bound "within the input's channel range" holds for the per-mille luminance only. With the source's doubles (2, 2, 2) becomes gray 1, below every channel.
