# ImageEditor, modelled in Dafny

ImageEditor is a Java library that reads an image (from a file or a stream),
applies a list of operations in order (resize, crop, cover, fit, scale-down)
and writes the result, alone or for every supported image of a directory.
PNG, JPEG, GIF, BMP and TIFF go through the JDK's built-in codecs. WebP and
AVIF go through external command-line tools (`cwebp`/`dwebp`,
`heif-enc`/`heif-dec`), with a temporary PNG in between.

This project models that library down to the level it can observe: an image
is its width, height, type code and whether it has alpha; the codecs,
processes and file system are oracles (`Environment.Oracles`); and the
mutable state is kept in objects (the files and live temp files in
`Environment.Runtime`, streams in `Streams`, the builders and the tool
directory). The modules follow the Java classes:

- `ImageFormat`: the enum, its lookup table (built by a loop, as the static
  initializer does) and `fromExtension`.
- `FormatDetector`: the 12-byte header loop over a stream with short reads,
  the signature table in priority order, mark/reset stream detection, path
  detection with the extension fallback, `getExtension` and `getFormat`.
- `Images`, `ImageScaler`, `ScaleMath`: the `BufferedImage` constructor and
  `getSubimage` at the size/type level, `safeType`, and exact-rational scale
  factors with `Math.round` as floor(x + 1/2).
- `ResizeOperation`, `CropOperation`, `CoverOperation`, `FitOperation`,
  `ScaleDownOperation`, `Operations`: construction-time validation, the
  dimension algebra of `apply`, and the fold over a list of operations.
- `OutputOptions`, `CliToolRunner`, `ImageIOHandler`: the options builder,
  the tool table and process-outcome classification, and the read/write
  dispatch with its alpha policy, writer branches, CLI commands and temp-file
  discipline.
- `ImageEditor`: the builder, `process` for paths and streams, output-name
  resolution, the directory filter and the sequential batch.

Java's exceptions become `Result`/`Outcome` failures carrying an
`Errors.Error` that names the same condition. Java `int` arithmetic is
modelled with mathematical integers. The one exception is
`CropOperation.ApplyAsWritten`, which models the 32-bit wrap-around of the
crop bounds check to exhibit the finding below; `CropOperation.Apply`, which
the pipeline uses, checks the bounds without overflow. Scale factors are exact rationals rather than doubles.

`ImageEditor.java` calls `outputOptions.getOutputFormat()` (lines 46, 69 and
137), but the `OutputOptions` record only declares the accessor
`outputFormat()`. The model reads the record's `outputFormat` component there,
which is what the code evidently means.

## Model

| member | source | states |
|---|---|---|
| Strings.ToLower | src/main/java/com/imageeditor/io/FormatDetector.java:148 | lower-casing keeps the length and lower-cases each letter |
| Strings.ToLowerIsLowerCase | src/main/java/com/imageeditor/io/FormatDetector.java:148 | the result of lower-casing is lower-case, and lower-casing twice is lower-casing once |
| Strings.LastIndexOf | src/main/java/com/imageeditor/io/FormatDetector.java:144 | the result is -1 or a position holding the character, with no occurrence after it |
| Strings.DecimalRoundTrip | src/main/java/com/imageeditor/io/ImageIOHandler.java:352 | the decimal text of a number reads back as that number |
| Strings.Trim | src/main/java/com/imageeditor/io/CliToolRunner.java:132 | trim keeps a contiguous middle part that starts and ends with a non-white-space character, and drops only white space (at most U+0020) around it |
| Strings.FileName | src/main/java/com/imageeditor/io/ImageIOHandler.java:58 | the file name is a suffix of the path with no separator in it, preceded by a separator when shorter than the path |
| Strings.FileNameOfResolve | src/main/java/com/imageeditor/ImageEditor.java:145 | resolving a single-component name in a directory gives back that name as the file name |
| ImageFormat.Extension | src/main/java/com/imageeditor/io/ImageFormat.java:49-51 | definition: the canonical extension of each constant, as declared; CanonicalExtensions and ExtensionRoundTrip state its properties |
| ImageFormat.Aliases | src/main/java/com/imageeditor/io/ImageFormat.java:16-22 | definition: the alias lists as declared, "jpg" for JPEG and none for the other constants |
| ImageFormat.IsStandard | src/main/java/com/imageeditor/io/ImageFormat.java:79-81 | definition: PNG, JPEG, GIF, BMP or TIFF; StandardFormats states the answer for all seven constants |
| ImageFormat.InitializeLookup | src/main/java/com/imageeditor/io/ImageFormat.java:29-36 | the static-initializer loop over every constant, its extension and then its aliases, builds exactly the lookup table |
| ImageFormat.FromExtension | src/main/java/com/imageeditor/io/ImageFormat.java:62-71 | null is an error; otherwise the result is the format registered under the lower-cased name, and an unknown name is an UnsupportedFormat error carrying the name as given |
| ImageFormat.ExtensionRoundTrip | src/main/java/com/imageeditor/io/ImageFormat.java:49-51 | looking up a format's own extension gives back that format |
| ImageFormat.CanonicalExtensions | src/main/java/com/imageeditor/io/ImageFormat.java:16-22 | every canonical extension is non-empty and lower-case, and no two formats share one |
| ImageFormat.OnlyAliasIsJpg | src/main/java/com/imageeditor/io/ImageFormat.java:17 | the only alias in the enum is "jpg", for JPEG |
| ImageFormat.FromExtensionIgnoresCase | src/main/java/com/imageeditor/io/ImageFormat.java:66 | a name and its lower-cased form look up the same format, or both fail |
| ImageFormat.JpegSpellings | src/main/java/com/imageeditor/io/ImageFormat.java:17 | "jpg", "JPG" and "Jpeg" all give JPEG |
| ImageFormat.UnknownExtensionIsError | src/main/java/com/imageeditor/io/ImageFormat.java:67-69 | a name that is not registered in any case is an error, never a default |
| ImageFormat.EmptyExtensionIsError | src/main/java/com/imageeditor/io/ImageFormat.java:67-69 | the empty extension is an error |
| ImageFormat.StandardFormats | src/main/java/com/imageeditor/io/ImageFormat.java:79-81 | exactly PNG, JPEG, GIF, BMP and TIFF are standard, and WebP and AVIF are not |
| FormatDetector.Header | src/main/java/com/imageeditor/io/FormatDetector.java:69-75 | the header holds the first min(n, 12) bytes of the content |
| FormatDetector.Pad | src/main/java/com/imageeditor/io/FormatDetector.java:69 | the buffer is always 12 bytes: the bytes read, then zeros |
| FormatDetector.Magic | src/main/java/com/imageeditor/io/FormatDetector.java:76-120 | definition: the byte tests of detectFromMagicBytes in their order, with their length guards, on the zero-padded buffer; MagicAgreesWithClassify relates it to the signature table |
| FormatDetector.Classify | src/main/java/com/imageeditor/io/FormatDetector.java:76-120 | the reference classifier: fewer than three bytes read give None, otherwise the first format of the table whose signature is present |
| FormatDetector.FirstMatch | src/main/java/com/imageeditor/io/FormatDetector.java:80-120 | no signature at all gives None; otherwise the answer is a listed format whose signature is present |
| FormatDetector.FirstMatchIsFirst | src/main/java/com/imageeditor/io/FormatDetector.java:80-120 | when format i matches and none before it does, format i is reported |
| FormatDetector.SignatureBytes | src/main/java/com/imageeditor/io/FormatDetector.java:80-118 | each format's signature, spelled out byte by byte with its length guard |
| FormatDetector.FirstMatchValues | src/main/java/com/imageeditor/io/FormatDetector.java:80-120 | the checks run in the order PNG, JPEG, GIF, BMP, TIFF, WebP, AVIF, and the first match is reported |
| FormatDetector.MagicAgreesWithClassify | src/main/java/com/imageeditor/io/FormatDetector.java:76-120 | the byte tests on the zero-padded buffer classify exactly as the signature table does on the bytes read, so the padding never matches |
| FormatDetector.Rank | src/main/java/com/imageeditor/io/FormatDetector.java:80-120 | each format's position in the order of the checks |
| FormatDetector.FirstSignatureWins | src/main/java/com/imageeditor/io/FormatDetector.java:80-120 | a format is reported exactly when its signature is present and no earlier format's is |
| FormatDetector.ShortHeaderUnknown | src/main/java/com/imageeditor/io/FormatDetector.java:76-78 | fewer than three bytes read gives None, not an error |
| FormatDetector.LengthGuards | src/main/java/com/imageeditor/io/FormatDetector.java:81-118 | a reported PNG, GIF or TIFF needed at least 4 bytes, JPEG 3, BMP 2 (and the 3-byte minimum), WebP and AVIF all 12 |
| FormatDetector.ThreeByteHeaders | src/main/java/com/imageeditor/io/FormatDetector.java:81-106 | three bytes identify JPEG and BMP but never PNG or GIF |
| FormatDetector.AvifExactly | src/main/java/com/imageeditor/io/FormatDetector.java:113-118 | AVIF is reported exactly for 12 bytes with "ftyp" at 4 and brand avif, avis or mif1 at 8, and no earlier signature |
| FormatDetector.TiffHeaders | src/main/java/com/imageeditor/io/FormatDetector.java:99-106 | both TIFF byte orders are recognised |
| FormatDetector.AvifHeader | src/main/java/com/imageeditor/io/FormatDetector.java:113-118 | a real AVIF file-type box is recognised |
| FormatDetector.WebpHeader | src/main/java/com/imageeditor/io/FormatDetector.java:108-111 | a RIFF/WEBP header is recognised |
| FormatDetector.UnknownHeaders | src/main/java/com/imageeditor/io/FormatDetector.java:120 | headers matching nothing, short ones included, give None |
| FormatDetector.DetectFromMagicBytes | src/main/java/com/imageeditor/io/FormatDetector.java:68-121 | the read loop collects at most 12 bytes, stopping at end of stream, with any chunk size; the result is the classification of the first min(n, 12) bytes of the rest; an IOException is reported |
| FormatDetector.DetectFormatStream | src/main/java/com/imageeditor/io/FormatDetector.java:54-66 | detection classifies the first bytes of the rest of the stream; a mark-supporting stream is back at its old position afterwards; a failing stream gives None |
| FormatDetector.GetExtension | src/main/java/com/imageeditor/io/FormatDetector.java:143-149 | no dot is an error naming the file; otherwise the result is the lower-cased text after the last dot |
| FormatDetector.GetExtensionOfJoin | src/main/java/com/imageeditor/io/FormatDetector.java:143-149 | for stem + "." + ext with no dot in ext, the extension is ext lower-cased, whatever dots the stem has |
| FormatDetector.GetExtensionDotOnly | src/main/java/com/imageeditor/io/FormatDetector.java:148 | "." has the empty extension |
| FormatDetector.GetExtensionMultipleDots | src/main/java/com/imageeditor/io/FormatDetector.java:144 | "image.backup.png" has extension "png" |
| FormatDetector.GetExtensionHiddenFile | src/main/java/com/imageeditor/io/FormatDetector.java:144-148 | ".gitignore" has extension "gitignore" |
| FormatDetector.GetExtensionLowerCases | src/main/java/com/imageeditor/io/FormatDetector.java:148 | "photo.PNG" has extension "png" |
| FormatDetector.GetExtensionNeedsDot | src/main/java/com/imageeditor/io/FormatDetector.java:145-147 | "" and "noext" are errors |
| FormatDetector.GetFormat | src/main/java/com/imageeditor/io/FormatDetector.java:131-134 | a name without a dot is an error; success implies the name has an extension |
| FormatDetector.GetFormatOfCanonicalName | src/main/java/com/imageeditor/io/FormatDetector.java:131-134 | a name ending in "." plus a canonical extension has that format |
| FormatDetector.GetFormatUpperCaseAlias | src/main/java/com/imageeditor/io/FormatDetector.java:131-134 | ".JPG" names JPEG |
| FormatDetector.GetFormatUnknownExtension | src/main/java/com/imageeditor/io/FormatDetector.java:131-134 | ".xyz" is an UnsupportedFormat error |
| FormatDetector.DetectedFormat | src/main/java/com/imageeditor/io/FormatDetector.java:28-41 | definition: the content signature when there is one, else the format of the extension, else None; DetectedFormatCases states each case |
| FormatDetector.DetectedFormatCases | src/main/java/com/imageeditor/io/FormatDetector.java:28-41 | recognised content wins; unreadable or unrecognised content falls back to the file name; the result is None only when both fail |
| FormatDetector.ContentBeatsExtension | src/main/java/com/imageeditor/io/FormatDetector.java:30-33 | PNG bytes in a file named .gif are PNG |
| FormatDetector.DetectFallsBackToExtension | src/main/java/com/imageeditor/io/FormatDetector.java:36-37 | unrecognised bytes fall back to the extension |
| FormatDetector.DetectUnreadableFile | src/main/java/com/imageeditor/io/FormatDetector.java:34-37 | an unreadable file is classified by its name |
| FormatDetector.DetectNothing | src/main/java/com/imageeditor/io/FormatDetector.java:38-40 | no signature and no extension gives None |
| FormatDetector.DetectFormatPath | src/main/java/com/imageeditor/io/FormatDetector.java:28-41 | detectFormat(Path) equals the content-then-name rule |
| Images.NewImage | src/main/java/com/imageeditor/operation/CoverOperation.java:31 | the BufferedImage constructor succeeds exactly for a positive size and a predefined type, and the image has that size, type and the type's alpha |
| Images.Subimage | src/main/java/com/imageeditor/operation/CoverOperation.java:40 | getSubimage succeeds exactly for a non-empty window inside the image, and the result has the window's size and the source's type |
| ImageScaler.SafeType | src/main/java/com/imageeditor/operation/ImageScaler.java:82-85 | TYPE_CUSTOM becomes TYPE_INT_ARGB, every other type is kept, and the result is always predefined |
| ImageScaler.Scale | src/main/java/com/imageeditor/operation/ImageScaler.java:29-36 | scale succeeds exactly for a positive size and returns exactly that size with the safe type |
| ImageScaler.CopyRegion | src/main/java/com/imageeditor/operation/ImageScaler.java:48-54 | copyRegion succeeds exactly for a positive size and returns exactly that size with the safe type |
| ImageScaler.RequirePositiveDimensions | src/main/java/com/imageeditor/operation/ImageScaler.java:65-69 | fails exactly when a dimension is not positive, with an error naming the operation and both values |
| ImageScaler.CustomTypeBecomesArgb | src/main/java/com/imageeditor/operation/ImageScaler.java:82-85 | a TYPE_CUSTOM source is scaled or copied into an ARGB image with alpha |
| ImageScaler.SafeTypeIdempotent | src/main/java/com/imageeditor/operation/ImageScaler.java:82-85 | safeType is the identity on predefined types and applying it twice changes nothing |
| ScaleMath.Max | src/main/java/com/imageeditor/operation/CoverOperation.java:26 | Math.max returns one of its arguments and neither is larger |
| ScaleMath.Min | src/main/java/com/imageeditor/operation/FitOperation.java:26 | Math.min returns one of its arguments and neither is smaller |
| ScaleMath.Round | src/main/java/com/imageeditor/operation/FitOperation.java:28-29 | Math.round of a non-negative fraction is the nearest integer, halves rounded up |
| ScaleMath.RoundUnique | src/main/java/com/imageeditor/operation/FitOperation.java:28-29 | the rounding bound fixes the result |
| ScaleMath.RoundExact | src/main/java/com/imageeditor/operation/FitOperation.java:28-29 | a whole number rounds to itself |
| ScaleMath.RoundMonotone | src/main/java/com/imageeditor/operation/FitOperation.java:28-29 | rounding is monotone |
| ScaleMath.ScaledToBound | src/main/java/com/imageeditor/operation/FitOperation.java:24-29 | a side scaled by bound / side is exactly the bound |
| ScaleMath.ScaledAtMost | src/main/java/com/imageeditor/operation/FitOperation.java:24-29 | a side scaled by at most bound / side is at most the bound after rounding |
| ScaleMath.ScaledAtLeast | src/main/java/com/imageeditor/operation/CoverOperation.java:24-29 | a side scaled by at least bound / side is at least the bound after rounding |
| ScaleMath.ScaledNotLarger | src/main/java/com/imageeditor/operation/ScaleDownOperation.java:28-33 | a factor of at most one never enlarges a side |
| ScaleMath.FactorBelowOne | src/main/java/com/imageeditor/operation/ScaleDownOperation.java:24-30 | when a side exceeds its bound, the min-scale factor is at most one |
| ResizeOperation.New | src/main/java/com/imageeditor/operation/ResizeOperation.java:14-17 | the constructor succeeds exactly for positive width and height |
| ResizeOperation.Apply | src/main/java/com/imageeditor/operation/ResizeOperation.java:23-30 | the output is exactly width x height with the input's type; a TYPE_CUSTOM input is rejected by the constructor call |
| ResizeOperation.SizeIndependentOfInput | src/main/java/com/imageeditor/operation/ResizeOperation.java:24 | the output does not depend on the input's size |
| ResizeOperation.EnlargeExample | src/main/java/com/imageeditor/operation/ResizeOperation.java:24 | 50x50 is enlarged to 200x150 |
| ResizeOperation.PreservesTypeExample | src/main/java/com/imageeditor/operation/ResizeOperation.java:24 | an RGB input stays RGB without alpha |
| ResizeOperation.RejectsNonPositive | src/main/java/com/imageeditor/operation/ResizeOperation.java:15-16 | a zero or negative side on either axis is rejected |
| CropOperation.New | src/main/java/com/imageeditor/operation/CropOperation.java:19-24 | the size is checked first and then the origin; success exactly for a positive size at a non-negative origin |
| CropOperation.Apply | src/main/java/com/imageeditor/operation/CropOperation.java:27-34 | succeeds exactly when the region lies inside the image, with the region's size; otherwise the bounds error naming both sizes |
| CropOperation.CropSucceedsIff | src/main/java/com/imageeditor/operation/CropOperation.java:19-34 | construct-and-apply succeeds exactly when x, y >= 0, the size is positive and x + w <= W and y + h <= H |
| CropOperation.EdgeCrops | src/main/java/com/imageeditor/operation/CropOperation.java:28 | the whole image and a one-pixel crop at the far corner succeed |
| CropOperation.OnePastTheEdge | src/main/java/com/imageeditor/operation/CropOperation.java:28-31 | a region one pixel too wide or too tall fails with the bounds error |
| CropOperation.AddInt | src/main/java/com/imageeditor/operation/CropOperation.java:28 | Java int addition: the sum wrapped into 32 bits, equal to the sum when it fits |
| CropOperation.ApplyAsWritten | src/main/java/com/imageeditor/operation/CropOperation.java:28-33 | apply with the two sums computed in 32-bit arithmetic |
| CropOperation.AsWrittenAgreesWithoutOverflow | src/main/java/com/imageeditor/operation/CropOperation.java:28 | without overflow the 32-bit check and the mathematical one agree |
| CropOperation.OverflowAcceptsOutsideRegion | src/main/java/com/imageeditor/operation/CropOperation.java:28 | x = 2147483647 with width 1 passes the 32-bit check on a 10x10 image although the region lies outside it |
| CoverOperation.New | src/main/java/com/imageeditor/operation/CoverOperation.java:14-17 | the constructor succeeds exactly for a positive target |
| CoverOperation.JavaDiv | src/main/java/com/imageeditor/operation/CoverOperation.java:37-38 | int division truncates toward zero |
| CoverOperation.ScaledCoversTarget | src/main/java/com/imageeditor/operation/CoverOperation.java:24-29 | with the max-scale factor both scaled sides are at least the target, and one equals it |
| CoverOperation.WindowInsideScaled | src/main/java/com/imageeditor/operation/CoverOperation.java:37-38 | the centred offsets are half the excess, non-negative, and offset + target fits in the scaled side on each axis |
| CoverOperation.Apply | src/main/java/com/imageeditor/operation/CoverOperation.java:23-41 | the output is exactly the target size with the input's type for any positive input size; only a TYPE_CUSTOM input fails |
| CoverOperation.LandscapeExample | src/main/java/com/imageeditor/operation/CoverOperation.java:24-38 | 300x200 covering 100x100 scales to 150x100 with offset (25, 0) |
| CoverOperation.ExtremeAspectExample | src/main/java/com/imageeditor/operation/CoverOperation.java:24-40 | 1000x1 covering 100x100 still gives exactly 100x100 |
| CoverOperation.SinglePixelExample | src/main/java/com/imageeditor/operation/CoverOperation.java:40 | 100x100 covering 1x1 gives 1x1 |
| FitOperation.New | src/main/java/com/imageeditor/operation/FitOperation.java:14-17 | the constructor succeeds exactly for positive bounds |
| FitOperation.FitSizeWithinBounds | src/main/java/com/imageeditor/operation/FitOperation.java:24-29 | the rounded size is within both bounds, and the side whose ratio is the minimum equals its bound |
| FitOperation.Apply | src/main/java/com/imageeditor/operation/FitOperation.java:23-37 | the output is the rounded min-scale size with the input's type; it fails when a side rounds to 0 or the type is TYPE_CUSTOM |
| FitOperation.ApplyFitsBox | src/main/java/com/imageeditor/operation/FitOperation.java:24-31 | every successful result fits the box and keeps the input type |
| FitOperation.LandscapeExample | src/main/java/com/imageeditor/operation/FitOperation.java:24-31 | 400x200 into 200x200 gives 200x100 |
| FitOperation.RoundingExample | src/main/java/com/imageeditor/operation/FitOperation.java:28-29 | 300x200 into 100x100 gives 100x67 |
| FitOperation.ThinExample | src/main/java/com/imageeditor/operation/FitOperation.java:28-29 | 10x1000 into 100x100 gives 1x100 |
| FitOperation.EnlargeExample | src/main/java/com/imageeditor/operation/FitOperation.java:24-31 | 50x100 into 200x400 is enlarged to 200x400 |
| FitOperation.CollapsedSideFails | src/main/java/com/imageeditor/operation/FitOperation.java:28-31 | 1x10000 into 100x100 rounds the width to 0, and the constructor call fails |
| ScaleDownOperation.New | src/main/java/com/imageeditor/operation/ScaleDownOperation.java:18-20 | the compact constructor succeeds exactly for positive bounds |
| ScaleDownOperation.Apply | src/main/java/com/imageeditor/operation/ScaleDownOperation.java:23-36 | an image that fits is returned as it is; otherwise the result is Fit's rounded size with the safe type |
| ScaleDownOperation.NeverEnlarges | src/main/java/com/imageeditor/operation/ScaleDownOperation.java:24-33 | the result is never larger than the input, and fits the bounds when scaling happened |
| ScaleDownOperation.ResultFitsBox | src/main/java/com/imageeditor/operation/ScaleDownOperation.java:24-35 | every successful result fits the box |
| ScaleDownOperation.Idempotent | src/main/java/com/imageeditor/operation/ScaleDownOperation.java:24-35 | applying it again to its own result returns that result |
| ScaleDownOperation.LandscapeExample | src/main/java/com/imageeditor/operation/ScaleDownOperation.java:28-35 | 400x200 into 200x200 gives 200x100 |
| ScaleDownOperation.OneSideExceedsExamples | src/main/java/com/imageeditor/operation/ScaleDownOperation.java:24 | one side over its bound is enough to scale |
| Operations.Apply | src/main/java/com/imageeditor/operation/Operation.java:21 | definition: apply dispatched to the operation it is; each operation's Apply states its result |
| Operations.ApplyAll | src/main/java/com/imageeditor/ImageEditor.java:42-44 | definition: the operations applied in list order, each to the previous result, the first failure ending the run; ApplyAllAppend and ApplyAllSnoc state its properties |
| Operations.ApplyAllAppend | src/main/java/com/imageeditor/ImageEditor.java:42-44 | running a + b is running a and then b on its result, stopping at the first failure |
| Operations.ApplyAllSnoc | src/main/java/com/imageeditor/ImageEditor.java:42-44 | one more operation at the end acts on the result of the others |
| Operations.ResizeTwiceExample | src/main/java/com/imageeditor/ImageEditor.java:42-44 | resize(100, 100) then resize(50, 25) gives 50x25 |
| Operations.OrderMatters | src/main/java/com/imageeditor/ImageEditor.java:42-44 | crop then resize succeeds where resize then crop fails |
| OutputOptions.Defaults | src/main/java/com/imageeditor/io/OutputOptions.java:20-22 | no quality, metadata kept, no output format |
| OutputOptions.CheckQuality | src/main/java/com/imageeditor/io/OutputOptions.java:50-52 | a quality is accepted exactly when it is a number in [0, 1]; NaN and the infinities are rejected |
| OutputOptions.QualityBoundaries | src/main/java/com/imageeditor/io/OutputOptions.java:50-54 | 0.0 and 1.0 are accepted and kept exactly; -0.1, 1.1, NaN and infinity are rejected |
| OutputOptions.Builder.Quality | src/main/java/com/imageeditor/io/OutputOptions.java:49-55 | an accepted quality is stored; a rejected one throws and leaves the builder as it was |
| OutputOptions.Builder.StripMetadata | src/main/java/com/imageeditor/io/OutputOptions.java:63-66 | stores the flag and nothing else |
| OutputOptions.Builder.OutputFormat | src/main/java/com/imageeditor/io/OutputOptions.java:75-78 | stores the format (null clears it) and nothing else |
| OutputOptions.Builder.Build | src/main/java/com/imageeditor/io/OutputOptions.java:85-87 | the options are exactly the current fields, and the builder is not changed |
| OutputOptions.BuildTwice | src/main/java/com/imageeditor/io/OutputOptions.java:85-87 | two builds in a row give equal options |
| CliToolRunner.CliToolsCoverNonStandard | src/main/java/com/imageeditor/io/CliToolRunner.java:19-22 | exactly WebP and AVIF have tools, two each |
| CliToolRunner.ToolSettings.SetToolDirectory | src/main/java/com/imageeditor/io/CliToolRunner.java:36-38 | the tool directory becomes the given value |
| CliToolRunner.ToolSettings.GetToolDirectory | src/main/java/com/imageeditor/io/CliToolRunner.java:46-48 | returns the tool directory |
| CliToolRunner.SetThenGet | src/main/java/com/imageeditor/io/CliToolRunner.java:36-48 | the value read is the value set last, and setting null resets it |
| CliToolRunner.ResolveToolPath | src/main/java/com/imageeditor/io/CliToolRunner.java:59-65 | dir/tool with a directory set, the bare name otherwise |
| CliToolRunner.ResolvedToolKeepsName | src/main/java/com/imageeditor/io/CliToolRunner.java:59-65 | whichever way it resolves, the tool keeps its own file name |
| CliToolRunner.LookupCommand | src/main/java/com/imageeditor/io/CliToolRunner.java:98-99 | "where" exactly when the lower-cased OS name contains "win", else "which" |
| CliToolRunner.WindowsUsesWhere | src/main/java/com/imageeditor/io/CliToolRunner.java:98-99 | an OS name starting "Win" selects where |
| CliToolRunner.OtherSystemsUseWhich | src/main/java/com/imageeditor/io/CliToolRunner.java:98-99 | an OS name without a w selects which |
| CliToolRunner.IsToolAvailable | src/main/java/com/imageeditor/io/CliToolRunner.java:92-106 | definition: with a tool directory, whether the file there is executable; otherwise whether the which/where lookup finished in time with exit code 0; every exception counts as false |
| CliToolRunner.DirectoryDecidesAvailability | src/main/java/com/imageeditor/io/CliToolRunner.java:94-97 | with a directory set, availability is whether dir/tool is executable |
| CliToolRunner.AllAvailable | src/main/java/com/imageeditor/io/CliToolRunner.java:79 | allMatch: true exactly when every listed tool is available |
| CliToolRunner.IsCliFormatSupported | src/main/java/com/imageeditor/io/CliToolRunner.java:74-80 | false without a table entry, else true exactly when every listed tool is available |
| CliToolRunner.CliSupportByFormat | src/main/java/com/imageeditor/io/CliToolRunner.java:74-80 | no standard format is CLI-supported; WebP and AVIF need both of their tools |
| CliToolRunner.AppendArg | src/main/java/com/imageeditor/io/CliToolRunner.java:153-158 | a fresh array holding the parts followed by the argument |
| CliToolRunner.OutcomeError | src/main/java/com/imageeditor/io/CliToolRunner.java:116-143 | success exactly for exit code 0 within the timeout; timeout, a non-zero exit (with the trimmed output), a failed launch and interruption each give their own error naming command[0] |
| CliToolRunner.RunProcess | src/main/java/com/imageeditor/io/CliToolRunner.java:116-143 | the result is the classification of the process outcome; an interruption sets the thread's interrupt flag; the command is the one launched; a process that did not start changes no file |
| ImageIOHandler.IsFormatSupported | src/main/java/com/imageeditor/io/ImageIOHandler.java:238-240 | standard formats are supported; the others exactly when the CLI tools are |
| ImageIOHandler.SupportByFormat | src/main/java/com/imageeditor/io/ImageIOHandler.java:238-240 | the five standard formats are supported; WebP and AVIF exactly when both of their tools are available |
| ImageIOHandler.SupportsAlpha | src/main/java/com/imageeditor/io/ImageIOHandler.java:309-311 | definition: PNG and TIFF keep alpha; AlphaPolicy states what a write does with it |
| ImageIOHandler.RemoveAlpha | src/main/java/com/imageeditor/io/ImageIOHandler.java:313-324 | the identity on images without alpha; otherwise a new RGB image of the same size without alpha |
| ImageIOHandler.AlphaPolicy | src/main/java/com/imageeditor/io/ImageIOHandler.java:254-256 | a standard write keeps alpha only for PNG and TIFF, never changes the size, and flattening twice is flattening once |
| ImageIOHandler.WriteBranch | src/main/java/com/imageeditor/io/ImageIOHandler.java:259-268 | quality set and JPEG: a writer with the options; else stripMetadata: a writer with the defaults; else the plain codec write |
| ImageIOHandler.WriterOutput | src/main/java/com/imageeditor/io/ImageIOHandler.java:279-307 | no writer is an error naming the format; a set quality is applied only when the writer can compress; the output is the oracle's encoding with those settings |
| ImageIOHandler.StandardBytes | src/main/java/com/imageeditor/io/ImageIOHandler.java:252-269 | what writeStandard produces: the flattened image encoded on the chosen branch, or a missing-writer or quality error |
| ImageIOHandler.FileWriteEncodings | src/main/java/com/imageeditor/io/ImageIOHandler.java:259-268 | only a JPEG file write uses the quality; stripMetadata uses writer defaults; neither option gives the codec default |
| ImageIOHandler.QualityIgnoredUnlessJpeg | src/main/java/com/imageeditor/io/ImageIOHandler.java:259-262 | for any format but JPEG a file write is the same with and without a quality |
| ImageIOHandler.StreamBytes | src/main/java/com/imageeditor/io/ImageIOHandler.java:271-277 | a stream write flattens alpha the same way and passes every option to the writer |
| ImageIOHandler.StreamHonoursQualityForEveryFormat | src/main/java/com/imageeditor/io/ImageIOHandler.java:276 | a stream write applies the quality even to PNG when the writer can compress, while a file write ignores it |
| ImageIOHandler.EncoderTool | src/main/java/com/imageeditor/io/ImageIOHandler.java:115-117 | the encoder is the first tool of the format's table entry |
| ImageIOHandler.DecoderTool | src/main/java/com/imageeditor/io/ImageIOHandler.java:64-66 | the decoder is the second tool of the format's table entry |
| ImageIOHandler.QualityPercent | src/main/java/com/imageeditor/io/ImageIOHandler.java:349 | Math.round(q * 100) is the nearest integer, halves rounded up |
| ImageIOHandler.QualityPercentRange | src/main/java/com/imageeditor/io/ImageIOHandler.java:349 | a quality in [0, 1] gives 0..100, with 0 and 1 mapped to 0 and 100 |
| ImageIOHandler.QualityPercentExamples | src/main/java/com/imageeditor/io/ImageIOHandler.java:349 | 0.8 gives 80, 0.005 gives 1, 0.004 gives 0 |
| ImageIOHandler.IntToString | src/main/java/com/imageeditor/io/ImageIOHandler.java:352 | String.valueOf: decimal digits, with a minus sign for a negative value |
| ImageIOHandler.Insert | src/main/java/com/imageeditor/io/ImageIOHandler.java:351-352 | ArrayList.add(index, element): one longer, the element at index, the rest shifted right by one |
| ImageIOHandler.FilledCommand | src/main/java/com/imageeditor/io/ImageIOHandler.java:343-353 | the reference for the command writeViaCliFromPng builds: placeholders filled with the temp path, and "-q N" right after the tool when a quality is set; FilledCommandShape states its shape |
| ImageIOHandler.FilledCommandShape | src/main/java/com/imageeditor/io/ImageIOHandler.java:343-353 | the placeholder is replaced by the temp path; with a quality, "-q" and the percentage sit at indices 1 and 2 and everything else moves up by two |
| ImageIOHandler.WriteCommand | src/main/java/com/imageeditor/io/ImageIOHandler.java:115-117 | the encoder command of write: the resolved encoder, the quality flag if any, the temp PNG, "-o" and the absolute output path; WriteCommandFromParts shows write's parts fill in to exactly this |
| ImageIOHandler.WriteCommandFromParts | src/main/java/com/imageeditor/io/ImageIOHandler.java:115-117 | the parts write passes, filled in, are [tool, -q N (if a quality is set), tmp, -o, absolute output] |
| ImageIOHandler.WebpWriteCommandExample | src/main/java/com/imageeditor/io/ImageIOHandler.java:115 | quality 0.8 with no tool directory gives cwebp -q 80 tmp -o out |
| ImageIOHandler.AvifWriteCommandExample | src/main/java/com/imageeditor/io/ImageIOHandler.java:117 | without a quality: heif-enc tmp -o out |
| ImageIOHandler.ReadCommand | src/main/java/com/imageeditor/io/ImageIOHandler.java:64-66 | a CLI read command starts with the resolved decoder tool |
| ImageIOHandler.ReadCommandFromParts | src/main/java/com/imageeditor/io/ImageIOHandler.java:64-66 | the parts read passes, with the temp PNG appended, are [dwebp, in, -o, tmp] for WebP and [heif-dec, in, tmp] for AVIF |
| ImageIOHandler.ReadCommandExamples | src/main/java/com/imageeditor/io/ImageIOHandler.java:64-66 | the two read commands for concrete paths |
| ImageIOHandler.BuildWriteCommand | src/main/java/com/imageeditor/io/ImageIOHandler.java:343-353 | the loop that fills the parts, then the two inserts, builds exactly the reference command |
| ImageIOHandler.ReadStandard | src/main/java/com/imageeditor/io/ImageIOHandler.java:244-250 | a missing file is a read failure; bytes that do not decode are an error naming the path; otherwise the decoded image |
| ImageIOHandler.CliReadToolFailure | src/main/java/com/imageeditor/io/ImageIOHandler.java:329-331 | when the tool fails, the CLI read reports the tool error and decodes nothing |
| ImageIOHandler.ReadViaCliToPng | src/main/java/com/imageeditor/io/ImageIOHandler.java:326-335 | a fresh temp PNG, the command with its absolute path appended, the tool run, the PNG decoded, and the temp file deleted on every path |
| ImageIOHandler.Read | src/main/java/com/imageeditor/io/ImageIOHandler.java:57-73 | the format comes from the file name (its error first, with no effect); standard formats are decoded with no effect; WebP and AVIF go through their decoder, leaving no temp file behind |
| ImageIOHandler.ReadCli | src/main/java/com/imageeditor/io/ImageIOHandler.java:63-66 | the WebP and AVIF branches of read(path) with their commands |
| ImageIOHandler.SpoolNameKeepsFormat | src/main/java/com/imageeditor/io/ImageIOHandler.java:148 | the spool file's name carries the hinted format, so read(path) sees the same format |
| ImageIOHandler.ReadStream | src/main/java/com/imageeditor/io/ImageIOHandler.java:139-163 | standard formats decode the rest of the stream with no file effect; WebP and AVIF spool the rest into a temp file, read it by path and delete it; a failing stream is an error |
| ImageIOHandler.SpoolAndRead | src/main/java/com/imageeditor/io/ImageIOHandler.java:147-156 | a fresh temp file named for the format receives the rest of the stream, read(path) decodes it with its own temp PNG, and the spool file is deleted on every path; a failing stream is StreamFailed with no file change |
| ImageIOHandler.WriteStandard | src/main/java/com/imageeditor/io/ImageIOHandler.java:252-269 | the file holds exactly the bytes of the chosen branch, or is untouched on error; no process is started |
| ImageIOHandler.WriteViaCliFromPng | src/main/java/com/imageeditor/io/ImageIOHandler.java:337-358 | a fresh temp PNG holds the PNG encoding, the filled command is run, and the temp file is deleted on every path |
| ImageIOHandler.WriteEffect | src/main/java/com/imageeditor/io/ImageIOHandler.java:110-124 | definition of what write(image, path, format, options) leaves: for a standard format the chosen bytes at the path (or no change, on error) and no process; for WebP and AVIF a fresh temp PNG, the encoder command launched, its outcome classified and the temp file gone |
| ImageIOHandler.Write | src/main/java/com/imageeditor/io/ImageIOHandler.java:110-124 | the effect is WriteEffect: standard formats write the chosen bytes with no process; WebP and AVIF run the encoder command on a fresh temp PNG and leave no temp file behind; the live temp files are as before |
| ImageIOHandler.WriteInferred | src/main/java/com/imageeditor/io/ImageIOHandler.java:95-99 | the format comes from the file name: its error first, with no effect; otherwise the effect is WriteEffect for that format, so standard formats write the chosen bytes with no process and WebP and AVIF run the encoder command and leave no temp file behind |
| ImageIOHandler.WriteDefaults | src/main/java/com/imageeditor/io/ImageIOHandler.java:83-85 | write(image, path) is the three-argument write with the default options: no quality, so a standard write is the plain codec write and a CLI command has no "-q" |
| ImageIOHandler.WriteStream | src/main/java/com/imageeditor/io/ImageIOHandler.java:177-197 | standard formats send the writer's bytes to the stream; WebP and AVIF write a temp file, copy it to the stream and delete it; on error nothing reaches the stream, and a stream whose write throws gives StreamWriteFailed |
| Streams.OutputStream.Write | src/main/java/com/imageeditor/io/ImageIOHandler.java:184-195 | a write appends the bytes, or, on a failing sink, reports failure and leaves what the sink holds unchanged |
| ImageEditor.Builder.Resize | src/main/java/com/imageeditor/ImageEditor.java:163-166 | appends a Resize on success; on a constructor error throws and appends nothing |
| ImageEditor.Builder.Crop | src/main/java/com/imageeditor/ImageEditor.java:168-171 | appends a Crop on success; on a constructor error throws and appends nothing |
| ImageEditor.Builder.Cover | src/main/java/com/imageeditor/ImageEditor.java:173-176 | appends a Cover on success; on a constructor error throws and appends nothing |
| ImageEditor.Builder.Fit | src/main/java/com/imageeditor/ImageEditor.java:178-181 | appends a Fit on success; on a constructor error throws and appends nothing |
| ImageEditor.Builder.Quality | src/main/java/com/imageeditor/ImageEditor.java:183-189 | accepts exactly a number in [0, 1]; a rejected value throws and changes nothing |
| ImageEditor.Builder.StripMetadata | src/main/java/com/imageeditor/ImageEditor.java:191-194 | sets the flag to true and nothing else |
| ImageEditor.Builder.OutputFormat | src/main/java/com/imageeditor/ImageEditor.java:196-199 | stores the format (null clears it) and nothing else |
| ImageEditor.Builder.Build | src/main/java/com/imageeditor/ImageEditor.java:201-210 | the editor holds the operations in call order and options equal to the builder's settings, which are well formed |
| ImageEditor.BuildThenExtend | src/main/java/com/imageeditor/ImageEditor.java:209 | a built editor keeps its operations when the builder is extended afterwards |
| ImageEditor.ApplyOperations | src/main/java/com/imageeditor/ImageEditor.java:42-44 | the loop equals the fold of the operations in list order, stopping at the first failure |
| ImageEditor.OutputFormatFor | src/main/java/com/imageeditor/ImageEditor.java:46-49 | the explicit output format wins; without one, the fallback is used |
| ImageEditor.ProcessPath | src/main/java/com/imageeditor/ImageEditor.java:39-51 | for standard formats: the input decoded, the operations folded, and the result written in the explicit format or the input's; every error stops with no effect; no temp file is left behind |
| ImageEditor.ProcessStream | src/main/java/com/imageeditor/ImageEditor.java:53-74 | nothing recognised in the first bytes fails before any decode with no effect; for standard formats the rest is decoded, folded and written to the output in the explicit or the detected format, and an output stream whose write throws gives StreamWriteFailed |
| ImageEditor.OutputKeepsNameWithoutFormat | src/main/java/com/imageeditor/ImageEditor.java:136-145 | without an output format the file keeps its name |
| ImageEditor.OutputNameNamesFormat | src/main/java/com/imageeditor/ImageEditor.java:137-145 | with an output format the output name always carries that format's extension |
| ImageEditor.ReplacesLastExtension | src/main/java/com/imageeditor/ImageEditor.java:139-143 | the text after the last dot is replaced by the canonical extension; dots in the stem are kept |
| ImageEditor.AppendsMissingExtension | src/main/java/com/imageeditor/ImageEditor.java:139-143 | a name without a dot gets the extension appended |
| ImageEditor.IsSupportedImage | src/main/java/com/imageeditor/ImageEditor.java:148-155 | true exactly when the name has a recognised extension and that format is supported; errors mean false |
| ImageEditor.StandardImageSupported | src/main/java/com/imageeditor/ImageEditor.java:148-151 | a name with a standard extension is always accepted |
| ImageEditor.UnknownExtensionUnsupported | src/main/java/com/imageeditor/ImageEditor.java:152-154 | an unknown extension is refused rather than thrown |
| ImageEditor.NoExtensionUnsupported | src/main/java/com/imageeditor/ImageEditor.java:152-154 | a name without a dot is refused rather than thrown |
| ImageEditor.FilterMembers | src/main/java/com/imageeditor/ImageEditor.java:92-96 | exactly the accepted entries are kept |
| ImageEditor.FilterAppend | src/main/java/com/imageeditor/ImageEditor.java:92-96 | filtering distributes over concatenation, so the kept entries stay in listing order |
| ImageEditor.SelectImageFiles | src/main/java/com/imageeditor/ImageEditor.java:90-96 | the loop keeps exactly the regular files that are supported images, in listing order |
| ImageEditor.ResolveOutputFile | src/main/java/com/imageeditor/ImageEditor.java:135-146 | definition: the input's file name in the output directory, with the text from the last dot replaced by the explicit format's extension (appended without a dot); OutputKeepsNameWithoutFormat states the default case |
| ImageEditor.Filter | src/main/java/com/imageeditor/ImageEditor.java:92-96 | the kept entries, in order, never more than the listing; FilterMembers, FilterAppend and FilterSnoc state which and in what order |
| ImageEditor.Selected | src/main/java/com/imageeditor/ImageEditor.java:93 | definition: a directory entry is processed when it is a regular file and a supported image |
| ImageEditor.ProcessEffect | src/main/java/com/imageeditor/ImageEditor.java:39-51 | the outcome and files of process(inputPath, outputPath) for a standard job: the extension error, the read error, the fold's error or the write error, each with no change, or the output file written |
| ImageEditor.ProcessEffectWritesOnlyOutput | src/main/java/com/imageeditor/ImageEditor.java:39-51 | a failing job changes no file; a passing one writes its output file and nothing else |
| ImageEditor.ProcessOne | src/main/java/com/imageeditor/ImageEditor.java:130-133 | processOne is process into the resolved output file: an extension error fails with no effect, and a standard job has exactly ProcessEffect's outcome and files; no temp file is left |
| ImageEditor.JobStep | src/main/java/com/imageeditor/ImageEditor.java:101-104 | definition: one file's turn in the sequential loop, processOne's effect on the files left by the files before it |
| ImageEditor.Batch | src/main/java/com/imageeditor/ImageEditor.java:101-104 | definition: the sequential loop as a fold; each file runs on the files the previous ones left, and the first failure ends the batch |
| ImageEditor.BatchAttempted | src/main/java/com/imageeditor/ImageEditor.java:101-104 | a passing batch processed every file; a failing one processed at least one, the failing one last |
| ImageEditor.BatchAppend | src/main/java/com/imageeditor/ImageEditor.java:101-104 | a batch over a + c is the batch over a, then, if it passed, the batch over c on the files a left |
| ImageEditor.BatchWritesAtMost | src/main/java/com/imageeditor/ImageEditor.java:101-104 | steps that each write at most their own target leave every other file as it was |
| ImageEditor.BatchWritesOnlyOutputs | src/main/java/com/imageeditor/ImageEditor.java:101-104 | a standard batch changes no file except the resolved output files of the listed inputs |
| ImageEditor.ProcessFirst | src/main/java/com/imageeditor/ImageEditor.java:101-104 | one turn of the loop is one step of Batch: a failure is the batch's last step, a success continues it on the remaining files |
| ImageEditor.ProcessAll | src/main/java/com/imageeditor/ImageEditor.java:101-104 | each file is processed in order and the first failure stops the batch; for standard jobs the outcome, the files left behind and the number processed are exactly those of Batch |
| ImageEditor.ProcessDirectory | src/main/java/com/imageeditor/ImageEditor.java:80-104 | not a directory, then a failed createDirectories, then a failed listing, each fail with no effect; otherwise the selected files are processed as a prefix in listing order, all of them on success, and for standard jobs the outcome and files are exactly those of Batch over the selected files |

## Left out

- Pixel contents: images are modelled by their width, height, type and alpha flag; interpolation (`drawImage` with bilinear hints), the white background that `removeAlpha` paints and the pixel copy of `copyRegion` are not modelled, so no contract speaks about which pixels an operation keeps.
- Floating point: scale factors are exact rationals, so the double rounding of `width * scale` and `Math.round`'s saturation at the int range are not modelled; the float-to-double widening of the quality is not modelled either.
- ImageScaler.CopyRegion: the source rectangle is a parameter of the Java method but only the target size is modelled, since the contents are not.
- ScaleDownOperation.Apply: returning the input image itself is modelled as returning an equal value; reference identity is not modelled.
- CoverOperation.Apply: `getSubimage` shares its raster with the scaled image; the aliasing is not modelled, only the window it selects.
- Parallel directory processing: the `parallelism > 1` branch (executor, futures, the first error rethrown after all tasks finish) and the `parallelism` argument are not modelled; only the sequential branch is. The `volatile` tool directory is a plain field.
- Temp file names: `Files.createTempFile` picks a random name; the model picks the first free name from a counter, and the contracts only rely on the name being fresh and on its suffix.
- File-system failures: IOExceptions of the file writes, the temp-file creation and the deletes are not modelled; `Files.createDirectories`, `Files.isDirectory`, `Files.isExecutable` and the directory listing are oracles of the environment, and the listing is fixed for the run.
- Streams: `BufferedInputStream` is modelled as a stream that reads its source eagerly, and the `instanceof BufferedInputStream` test as `markSupported()`; the 8 KiB buffer and partial reads of the underlying stream are not modelled.
- Codecs: ImageIO readers and writers, their metadata and the bytes they produce are oracles; a writer that rejects a particular image type, the `ImageIO.createImageOutputStream` null result and the writer leaving old bytes past the new end of a file are not modelled (a write replaces the file's contents).
- Integer width: every int is unbounded except in CropOperation.ApplyAsWritten, which wraps `x + width` and `y + height` to 32 bits to exhibit the finding; the other int operations of the Java code are modelled without a width.
- Strings.ToLower: lower-cases the ASCII letters A-Z only, which is what `String.toLowerCase()` does for these names under the root or an English default locale; the locale-dependent mappings (under a Turkish or Azeri default locale "GIF" becomes "gıf" and no longer names a format) and the non-ASCII letters are not modelled. The same holds for Strings.LowerChar and for the three places that lower-case: the extension in `getExtension` (FormatDetector.java:148), the lookup key in `fromExtension` (ImageFormat.java:66) and the OS name in `isToolAvailable` (CliToolRunner.java:99).
- Strings.FileName: for the root path "/", `Path.getFileName()` returns null and `read`, `write`, `process`, `resolveOutputFile` and `isSupportedImage` throw a NullPointerException; the model gives the empty name, so these report the ordinary missing-extension error instead. Paths are plain strings joined with "/"; the normalisation of `java.nio.file.Path` (a trailing or doubled separator) is not modelled.
- External processes: the which/where lookup and the conversions are oracles giving an outcome and the new files; the OS timeout mechanics and `destroyForcibly` are not modelled, and `isToolAvailable` clearing the interrupt flag it observes is not modelled (only `runProcess` sets it).
- ImageIOHandler's one-line delegations (`getFormat`, `getExtension`, `detectFormat`, `setToolDirectory`, `getToolDirectory`) are modelled once, where they are implemented, in FormatDetector and CliToolRunner.
- Exceptions become error values of one datatype; `ImageEditorException`'s message text and cause chain are not modelled.
- An `OutputOptions` record built directly with an out-of-range quality bypasses the builder's check; the model writes such options like any other, and only the builders keep the quality in range.
- ImageEditor.ProcessPath: the end-to-end result is stated for a built-in input and output format; for WebP and AVIF it states only the extension error, the absence of effects on it, and that no temp file is left behind.
- ImageEditor.ProcessStream: the end-to-end result is stated for a built-in detected and output format; for WebP and AVIF it states only the detection failure and its absence of effect.
- ImageEditor.ProcessAll: the outcome and the files are stated exactly (as Batch) only when every file is a standard job; a batch with a WebP or AVIF input or output is stated only as a prefix of the files in order, stopped by the first failure.
- ImageEditor.ProcessDirectory: as for ProcessAll, the effect of the batch is stated exactly only when every selected file is a standard job; otherwise only the order of the checks and the files attempted are stated.

## Findings

| source | as written | input that shows it | evidently intended | confidence | as-written member | corrected member |
|---|---|---|---|---|---|---|
| src/main/java/com/imageeditor/operation/CropOperation.java:28 | the bounds check adds `x + width` and `y + height` in 32-bit int arithmetic, which can wrap to a negative value | crop at x = 2147483647 with width 1 on a 10x10 image: the sum wraps to -2147483648, the check passes and a region outside the image is requested | reject every region that does not lie inside the image | not executed | CropOperation.OverflowAcceptsOutsideRegion | CropOperation.CropSucceedsIff |
