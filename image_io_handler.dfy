/**
 * ImageIOHandler: reading and writing images. The five standard formats go
 * through the ImageIO codecs; WebP and AVIF are converted through a temporary
 * PNG by the external tools of CliToolRunner. Each temp file a call creates is
 * gone again when the call returns, whichever way it returns.
 */
module ImageIOHandler {
  import opened Wrappers
  import opened Errors
  import opened Strings
  import opened Streams
  import opened Images
  import opened ImageFormat
  import opened FormatDetector
  import opened OutputOptions
  import opened Environment
  import opened CliToolRunner

  // ---------------------------------------------------------------------------
  // Format support and the alpha policy.

  /** isFormatSupported(format): a built-in codec, or every CLI tool of the format available. */
  function IsFormatSupported(env: Oracles, files: FileMap, directory: Option<Path>, format: Format): (r: bool)
    ensures IsStandard(format) ==> r
    ensures !IsStandard(format) ==> (r <==> IsCliFormatSupported(env, files, directory, format))
  {
    IsStandard(format) || IsCliFormatSupported(env, files, directory, format)
  }

  /** WebP is supported exactly when cwebp and dwebp are, AVIF when heif-enc and heif-dec are. */
  lemma SupportByFormat(env: Oracles, files: FileMap, directory: Option<Path>)
    ensures IsFormatSupported(env, files, directory, PNG) && IsFormatSupported(env, files, directory, JPEG)
    ensures IsFormatSupported(env, files, directory, GIF) && IsFormatSupported(env, files, directory, BMP)
    ensures IsFormatSupported(env, files, directory, TIFF)
    ensures IsFormatSupported(env, files, directory, WEBP) <==>
              IsToolAvailable(env, files, directory, "cwebp") && IsToolAvailable(env, files, directory, "dwebp")
    ensures IsFormatSupported(env, files, directory, AVIF) <==>
              IsToolAvailable(env, files, directory, "heif-enc") && IsToolAvailable(env, files, directory, "heif-dec")
  {
    CliSupportByFormat(env, files, directory);
  }

  /** supportsAlpha(format): only PNG and TIFF keep an alpha channel. */
  predicate SupportsAlpha(format: Format)
  {
    format == PNG || format == TIFF
  }

  /**
   * removeAlpha(image): the image itself when its colour model has no alpha;
   * otherwise a new TYPE_INT_RGB image of the same size (the image drawn over
   * white).
   */
  function RemoveAlpha(image: BufferedImage): (r: BufferedImage)
    ensures !r.hasAlpha && r.width == image.width && r.height == image.height
    ensures !image.hasAlpha ==> r == image
    ensures image.hasAlpha ==> NewImage(image.width, image.height, TypeIntRgb) == Success(r)
  {
    if !image.hasAlpha then image else Image(image.width, image.height, TypeIntRgb, false)
  }

  /** The image a standard write encodes: alpha is flattened unless the format keeps it. */
  function Flattened(image: BufferedImage, format: Format): BufferedImage
  {
    if SupportsAlpha(format) then image else RemoveAlpha(image)
  }

  /**
   * Only PNG and TIFF output can carry alpha; every other format gets an image
   * without it, of the same size; flattening twice is flattening once.
   */
  lemma AlphaPolicy(image: BufferedImage, format: Format)
    ensures Flattened(image, format).width == image.width && Flattened(image, format).height == image.height
    ensures Flattened(image, format).hasAlpha ==> SupportsAlpha(format) && image.hasAlpha
    ensures SupportsAlpha(format) ==> Flattened(image, format) == image
    ensures !image.hasAlpha ==> Flattened(image, format) == image
    ensures Flattened(Flattened(image, format), format) == Flattened(image, format)
  {
  }

  // ---------------------------------------------------------------------------
  // The encoder settings of the standard writes.

  /** Which of writeStandard's three branches runs. */
  datatype StandardWrite =
    | WriterWith(options: Options)  // writeViaImageWriter with these options
    | PlainWrite                    // ImageIO.write

  /**
   * writeStandard's choice: the caller's options for JPEG with a quality; else
   * the defaults when metadata is stripped; else the plain codec write.
   */
  function WriteBranch(format: Format, options: Options): (b: StandardWrite)
    ensures b.WriterWith? <==> (options.quality.Some? && format == JPEG) || options.stripMetadata
    ensures options.quality.Some? && format == JPEG ==> b == WriterWith(options)
    ensures !(options.quality.Some? && format == JPEG) && options.stripMetadata ==> b == WriterWith(Defaults())
  {
    if options.quality.Some? && format == JPEG then WriterWith(options)
    else if options.stripMetadata then WriterWith(Defaults())
    else PlainWrite
  }

  /** The settings writeViaImageWriter gives the writer: explicit compression when it can and a quality is set. */
  function WriterEncoding(env: Oracles, format: Format, options: Options): Encoding
  {
    if options.quality.Some? && env.canWriteCompressed(format) then Compressed(options.quality.value)
    else WriterDefault
  }

  /**
   * writeViaImageWriter: no writer for the format is an error; so is a quality
   * outside [0, 1] for a writer that compresses (setCompressionQuality throws);
   * otherwise the bytes the writer produces.
   */
  function WriterOutput(env: Oracles, image: BufferedImage, format: Format, options: Options): (r: Result<seq<Byte>, Error>)
    ensures !env.hasWriter(format) ==> r == Failure(NoWriter(Extension(format)))
    ensures env.hasWriter(format) ==>
              (r.Failure? <==> WriterEncoding(env, format, options).Compressed? && !InRange(options.quality.value))
    ensures r.Failure? && env.hasWriter(format) ==> r.error == InvalidQuality
    ensures r.Success? ==> r.value == env.encode(image, format, WriterEncoding(env, format, options))
  {
    if !env.hasWriter(format) then Failure(NoWriter(Extension(format)))
    else
      var encoding := WriterEncoding(env, format, options);
      if encoding.Compressed? && !InRange(encoding.quality) then Failure(InvalidQuality)
      else Success(env.encode(image, format, encoding))
  }

  /** The encoding writeStandard ends up with. */
  function StandardEncoding(env: Oracles, format: Format, options: Options): Encoding
  {
    match WriteBranch(format, options)
    case WriterWith(o) => WriterEncoding(env, format, o)
    case PlainWrite => CodecDefault
  }

  /** What writeStandard puts in the file, or the error it raises. */
  function StandardBytes(env: Oracles, image: BufferedImage, format: Format, options: Options): (r: Result<seq<Byte>, Error>)
    ensures !env.hasWriter(format) ==> r == Failure(NoWriter(Extension(format)))
    ensures r.Success? ==> r.value == env.encode(Flattened(image, format), format, StandardEncoding(env, format, options))
    ensures r.Failure? ==> r.error == NoWriter(Extension(format)) || r.error == InvalidQuality
  {
    var flat := Flattened(image, format);
    match WriteBranch(format, options)
    case WriterWith(o) => WriterOutput(env, flat, format, o)
    case PlainWrite =>
      if env.hasWriter(format) then Success(env.encode(flat, format, CodecDefault))
      else Failure(NoWriter(Extension(format)))
  }

  /**
   * The quality reaches the encoder of a file write only for JPEG; stripping
   * metadata alone gives the writer defaults; with neither the codec's own
   * write runs.
   */
  lemma FileWriteEncodings(env: Oracles, format: Format, options: Options)
    ensures format == JPEG && options.quality.Some? && env.canWriteCompressed(JPEG) ==>
              StandardEncoding(env, format, options) == Compressed(options.quality.value)
    ensures format != JPEG ==> !StandardEncoding(env, format, options).Compressed?
    ensures format != JPEG && options.stripMetadata ==> StandardEncoding(env, format, options) == WriterDefault
    ensures options.quality.None? && !options.stripMetadata ==> StandardEncoding(env, format, options) == CodecDefault
  {
  }

  /** A quality setting changes nothing about a file write in any format but JPEG. */
  lemma QualityIgnoredUnlessJpeg(env: Oracles, image: BufferedImage, format: Format, options: Options)
    requires format != JPEG
    ensures StandardBytes(env, image, format, options) == StandardBytes(env, image, format, options.(quality := None))
  {
  }

  /** What writeStandardToStream sends, or the error it raises: every option goes to the writer. */
  function StreamBytes(env: Oracles, image: BufferedImage, format: Format, options: Options): (r: Result<seq<Byte>, Error>)
    ensures r == WriterOutput(env, Flattened(image, format), format, options)
  {
    WriterOutput(env, Flattened(image, format), format, options)
  }

  /**
   * Streams and files differ: a stream write passes the quality to any writer
   * that compresses, a PNG writer included, where a file write of the same PNG
   * ignores it.
   */
  lemma StreamHonoursQualityForEveryFormat(env: Oracles, image: BufferedImage, q: real)
    requires InRange(q) && env.hasWriter(PNG) && env.canWriteCompressed(PNG)
    ensures StreamBytes(env, image, PNG, Options(Some(q), false, None)) ==
              Success(env.encode(image, PNG, Compressed(q)))
    ensures StandardBytes(env, image, PNG, Options(Some(q), false, None)) ==
              Success(env.encode(image, PNG, CodecDefault))
  {
  }

  // ---------------------------------------------------------------------------
  // External-tool commands.

  /** The encoder writeViaCliFromPng runs for a non-standard format. */
  function EncoderTool(format: Format): (tool: string)
    requires !IsStandard(format)
    ensures tool == CliTools[format][0]
  {
    if format == WEBP then "cwebp" else "heif-enc"
  }

  /** The decoder readViaCliToPng runs for a non-standard format. */
  function DecoderTool(format: Format): (tool: string)
    requires !IsStandard(format)
    ensures tool == CliTools[format][1]
  {
    if format == WEBP then "dwebp" else "heif-dec"
  }

  /** Math.round(q * 100): the nearest integer, halves rounded up. */
  function QualityPercent(q: real): (n: int)
    ensures n as real - 0.5 <= q * 100.0 < n as real + 0.5
  {
    (q * 100.0 + 0.5).Floor
  }

  /** A quality in [0, 1] becomes a percentage in 0..100. */
  lemma QualityPercentRange(q: real)
    requires InRange(q)
    ensures 0 <= QualityPercent(q) <= 100
    ensures q == 0.0 ==> QualityPercent(q) == 0
    ensures q == 1.0 ==> QualityPercent(q) == 100
  {
  }

  lemma QualityPercentExamples()
    ensures QualityPercent(0.8) == 80
    ensures QualityPercent(0.005) == 1
    ensures QualityPercent(0.004) == 0
  {
  }

  /** String.valueOf(int). */
  function IntToString(n: int): (r: string)
    ensures n >= 0 ==> r == DecimalString(n)
    ensures n < 0 ==> r == "-" + DecimalString(-n)
  {
    if n < 0 then "-" + DecimalString(-n) else DecimalString(n)
  }

  /** The "-q N" pair a quality adds, none without one. */
  function QualityArgs(quality: Option<real>): seq<string>
  {
    match quality
    case None => []
    case Some(q) => ["-q", IntToString(QualityPercent(q))]
  }

  /** A command part: the placeholder (null) stands for the temp PNG. */
  function Fill(part: Option<string>, tmp: string): string
  {
    match part
    case None => tmp
    case Some(p) => p
  }

  /** ArrayList.add(index, element). */
  function Insert(s: seq<string>, index: nat, element: string): (r: seq<string>)
    requires index <= |s|
    ensures |r| == |s| + 1 && r[index] == element
    ensures forall j :: 0 <= j < index ==> r[j] == s[j]
    ensures forall j :: index <= j < |s| ==> r[j + 1] == s[j]
  {
    s[..index] + [element] + s[index..]
  }

  /** The command writeViaCliFromPng builds, as a reference for the loop that builds it. */
  function FilledCommand(parts: seq<Option<string>>, tmp: string, quality: Option<real>): seq<string>
    requires quality.Some? ==> |parts| >= 1
  {
    var filled := seq(|parts|, i requires 0 <= i < |parts| => Fill(parts[i], tmp));
    if quality.Some? then [filled[0]] + QualityArgs(quality) + filled[1..] else filled
  }

  /**
   * The placeholder becomes the temp PNG at its own position, every other part
   * is kept, and a quality puts "-q" and its percentage right after the tool.
   */
  lemma FilledCommandShape(parts: seq<Option<string>>, tmp: string, quality: Option<real>)
    requires quality.Some? ==> |parts| >= 1
    ensures var c := FilledCommand(parts, tmp, quality);
            var k := if quality.Some? then 2 else 0;
            && |c| == |parts| + k
            && (quality.Some? ==> c[0] == Fill(parts[0], tmp) && c[1] == "-q"
                                  && c[2] == IntToString(QualityPercent(quality.value)))
            && (forall i :: (if quality.Some? then 1 else 0) <= i < |parts| ==> c[i + k] == Fill(parts[i], tmp))
  {
  }

  /**
   * The command a write to `output` runs: the encoder, the quality flag if
   * any, the temp PNG, then "-o" and the absolute output path.
   */
  function WriteCommand(env: Oracles, directory: Option<Path>, format: Format, output: Path, tmp: string,
                        quality: Option<real>): seq<string>
    requires !IsStandard(format)
  {
    [ResolveToolPath(directory, EncoderTool(format))] + QualityArgs(quality) + [tmp, "-o", Absolute(env, output)]
  }

  /** The parts write passes, filled in, give exactly WriteCommand. */
  lemma WriteCommandFromParts(env: Oracles, directory: Option<Path>, format: Format, output: Path, tmp: string,
                              quality: Option<real>)
    requires !IsStandard(format)
    ensures FilledCommand([Some(ResolveToolPath(directory, EncoderTool(format))), None, Some("-o"), Some(Absolute(env, output))],
                          tmp, quality)
            == WriteCommand(env, directory, format, output, tmp, quality)
  {
    var parts := [Some(ResolveToolPath(directory, EncoderTool(format))), None, Some("-o"), Some(Absolute(env, output))];
    var filled := seq(|parts|, i requires 0 <= i < |parts| => Fill(parts[i], tmp));
    assert filled == [ResolveToolPath(directory, EncoderTool(format)), tmp, "-o", Absolute(env, output)];
    assert filled[1..] == [tmp, "-o", Absolute(env, output)];
  }

  /** With quality 0.8 and no tool directory: cwebp -q 80 tmp -o out. */
  lemma WebpWriteCommandExample(env: Oracles, tmp: string)
    ensures WriteCommand(env, None, WEBP, "/out/a.webp", tmp, Some(0.8)) == ["cwebp", "-q", "80", tmp, "-o", "/out/a.webp"]
  {
    assert QualityPercent(0.8) == 80;
    assert DecimalString(80) == "80";
  }

  /** Without a quality: heif-enc tmp -o out. */
  lemma AvifWriteCommandExample(env: Oracles, tmp: string)
    ensures WriteCommand(env, None, AVIF, "/out/a.avif", tmp, None) == ["heif-enc", tmp, "-o", "/out/a.avif"]
  {
  }

  /**
   * The command a CLI read of `input` runs: dwebp input -o tmp for WebP,
   * heif-dec input tmp for AVIF.
   */
  function ReadCommand(env: Oracles, directory: Option<Path>, format: Format, input: Path, tmp: string): (c: seq<string>)
    requires !IsStandard(format)
    ensures |c| >= 1 && c[0] == ResolveToolPath(directory, DecoderTool(format))
  {
    var tool := ResolveToolPath(directory, DecoderTool(format));
    if format == WEBP then [tool, Absolute(env, input), "-o", tmp]
    else [tool, Absolute(env, input), tmp]
  }

  /** The parts read passes, with the temp PNG appended, give exactly ReadCommand. */
  lemma ReadCommandFromParts(env: Oracles, directory: Option<Path>, format: Format, input: Path, tmp: string)
    requires !IsStandard(format)
    ensures var tool := ResolveToolPath(directory, DecoderTool(format));
            var parts := if format == WEBP then [tool, Absolute(env, input), "-o"] else [tool, Absolute(env, input)];
            parts + [tmp] == ReadCommand(env, directory, format, input, tmp)
  {
  }

  lemma ReadCommandExamples(env: Oracles, tmp: string)
    ensures ReadCommand(env, None, WEBP, "/in/a.webp", tmp) == ["dwebp", "/in/a.webp", "-o", tmp]
    ensures ReadCommand(env, None, AVIF, "/in/a.avif", tmp) == ["heif-dec", "/in/a.avif", tmp]
  {
  }

  /**
   * The command writeViaCliFromPng hands to runProcess: the parts with the
   * placeholder filled, then the quality flag inserted at positions 1 and 2.
   */
  method BuildWriteCommand(parts: seq<Option<string>>, tmp: string, quality: Option<real>) returns (command: seq<string>)
    requires quality.Some? ==> |parts| >= 1
    ensures command == FilledCommand(parts, tmp, quality)
  {
    command := [];
    for i := 0 to |parts|
      invariant |command| == i
      invariant forall j :: 0 <= j < i ==> command[j] == Fill(parts[j], tmp)
    {
      var part := if parts[i].None? then tmp else parts[i].value;
      command := command + [part];
    }
    ghost var filled := command;
    assert filled == seq(|parts|, i requires 0 <= i < |parts| => Fill(parts[i], tmp));
    if quality.Some? {
      var qValue := QualityPercent(quality.value);
      command := Insert(command, 1, "-q");
      command := Insert(command, 2, IntToString(qValue));
      assert command == [filled[0]] + QualityArgs(quality) + filled[1..];
    }
  }

  // ---------------------------------------------------------------------------
  // Reading.

  /**
   * readStandard(path) inside read(reported): a file that cannot be read is an
   * IOException, which read reports for `reported`; a null decode result is an
   * error naming `path`.
   */
  function ReadStandard(env: Oracles, files: FileMap, path: Path, reported: Path): (r: Result<BufferedImage, Error>)
    ensures path !in files ==> r == Failure(ReadFailed(reported))
    ensures path in files ==> (r.Success? <==> env.decode(files[path]).Some?)
    ensures path in files && r.Success? ==> r.value == env.decode(files[path]).value
    ensures path in files && r.Failure? ==> r.error == CouldNotDecode(path)
  {
    if path !in files then Failure(ReadFailed(reported))
    else
      match env.decode(files[path])
      case None => Failure(CouldNotDecode(path))
      case Some(image) => Success(image)
  }

  /** What a CLI read yields: the tool's error, or the decoded temp PNG it left. */
  function CliReadResult(env: Oracles, files: FileMap, command: seq<string>, tmp: Path, input: Path): Result<BufferedImage, Error>
    requires |command| >= 1
  {
    var run := env.run(command, TimeoutSeconds, files);
    var checked := OutcomeError(command[0], run.outcome);
    if checked.Fail? then Failure(checked.error) else ReadStandard(env, run.files, tmp, input)
  }

  /** A tool that fails is reported and nothing is decoded. */
  lemma CliReadToolFailure(env: Oracles, files: FileMap, command: seq<string>, tmp: Path, input: Path)
    requires |command| >= 1
    requires OutcomeError(command[0], env.run(command, TimeoutSeconds, files).outcome).Fail?
    ensures CliReadResult(env, files, command, tmp, input) ==
              Failure(OutcomeError(command[0], env.run(command, TimeoutSeconds, files).outcome).error)
  {
  }

  /** p is one of the names Files.createTempFile(prefix, suffix) picks. */
  ghost predicate TempName(rt: Runtime, p: Path, prefix: string, suffix: string)
  {
    exists n: nat :: p == rt.TempPath(prefix, n, suffix)
  }

  /**
   * readViaCliToPng(input, parts): convert into a fresh temp PNG named as the
   * last argument, decode it, and delete it again.
   */
  method ReadViaCliToPng(env: Oracles, rt: Runtime, input: Path, parts: seq<string>)
      returns (r: Result<BufferedImage, Error>, tmp: Path)
    requires |parts| >= 1
    modifies rt
    ensures tmp !in old(rt.files) && TempName(rt, tmp, "imageeditor-", ".png")
    ensures var command := parts + [Absolute(env, tmp)];
            && rt.launched == old(rt.launched) + [command]
            && r == CliReadResult(env, old(rt.files)[tmp := []], command, tmp, input)
            && rt.files == FilesAfterRun(env, command, TimeoutSeconds, old(rt.files)[tmp := []]) - {tmp}
    ensures rt.temps == old(rt.temps)
  {
    tmp := rt.CreateTempFile("imageeditor-", ".png");
    var partsArray := new string[|parts|](i requires 0 <= i < |parts| => parts[i]);
    assert partsArray[..] == parts;
    var commandArray := AppendArg(partsArray, Absolute(env, tmp));
    var command := commandArray[..];
    var ran := RunProcess(env, rt, command);
    if ran.Fail? {
      r := Failure(ran.error);
    } else {
      r := ReadStandard(env, rt.files, tmp, input);
    }
    rt.DeleteIfExists(tmp);
  }

  /**
   * read(path): the file name's extension picks the format (an unknown or
   * missing one is an error); standard formats are decoded directly, WebP and
   * AVIF through their decoder into the temp PNG `tmp`.
   */
  method Read(env: Oracles, rt: Runtime, directory: Option<Path>, path: Path)
      returns (r: Result<BufferedImage, Error>, ghost tmp: Path)
    modifies rt
    ensures rt.temps == old(rt.temps)
    ensures GetFormat(FileName(path)).Failure? ==> r == Failure(GetFormat(FileName(path)).error) && unchanged(rt)
    ensures GetFormat(FileName(path)).Success? && IsStandard(GetFormat(FileName(path)).value) ==>
              r == ReadStandard(env, old(rt.files), path, path) && unchanged(rt)
    ensures GetFormat(FileName(path)).Success? && !IsStandard(GetFormat(FileName(path)).value) ==>
              var command := ReadCommand(env, directory, GetFormat(FileName(path)).value, path, Absolute(env, tmp));
              && tmp !in old(rt.files) && TempName(rt, tmp, "imageeditor-", ".png")
              && rt.launched == old(rt.launched) + [command]
              && r == CliReadResult(env, old(rt.files)[tmp := []], command, tmp, path)
              && rt.files == FilesAfterRun(env, command, TimeoutSeconds, old(rt.files)[tmp := []]) - {tmp}
  {
    tmp := "";
    var format := GetFormat(FileName(path));
    if format.Failure? {
      return Failure(format.error), tmp;
    }
    if IsStandard(format.value) {
      return ReadStandard(env, rt.files, path, path), tmp;
    }
    r, tmp := ReadCli(env, rt, directory, path, format.value);
  }

  /** The WebP and AVIF branches of read(path). */
  method ReadCli(env: Oracles, rt: Runtime, directory: Option<Path>, path: Path, format: Format)
      returns (r: Result<BufferedImage, Error>, tmp: Path)
    requires !IsStandard(format)
    modifies rt
    ensures rt.temps == old(rt.temps)
    ensures var command := ReadCommand(env, directory, format, path, Absolute(env, tmp));
            && tmp !in old(rt.files) && TempName(rt, tmp, "imageeditor-", ".png")
            && rt.launched == old(rt.launched) + [command]
            && r == CliReadResult(env, old(rt.files)[tmp := []], command, tmp, path)
            && rt.files == FilesAfterRun(env, command, TimeoutSeconds, old(rt.files)[tmp := []]) - {tmp}
  {
    var tool := ResolveToolPath(directory, DecoderTool(format));
    var parts := if format == WEBP then [tool, Absolute(env, path), "-o"] else [tool, Absolute(env, path)];
    r, tmp := ReadViaCliToPng(env, rt, path, parts);
    ReadCommandFromParts(env, directory, format, path, Absolute(env, tmp));
  }

  /** The temp file a stream read spools into is named so that read(path) sees the same format. */
  lemma SpoolNameKeepsFormat(rt: Runtime, prefix: string, n: nat, format: Format)
    requires '/' !in prefix
    ensures GetFormat(FileName(rt.TempPath(prefix, n, "." + Extension(format)))) == Success(format)
  {
    var stem := prefix + DecimalString(n);
    assert '/' !in DecimalString(n) by {
      var d := DecimalString(n);
      forall i | 0 <= i < |d| ensures d[i] != '/' {
        assert '0' <= d[i] <= '9';
      }
    }
    assert '/' !in stem;
    var name := TempFileName(prefix, n, "." + Extension(format));
    assert name == stem + "." + Extension(format);
    NoSlashInCanonicalName(stem, format);
    FileNameOfResolve(rt.tempDir, name);
    GetFormatOfCanonicalName(stem, format);
  }

  /**
   * read(input, format): a standard format is decoded from the stream; WebP
   * and AVIF are spooled into the temp file `spooled`, named with the
   * format's extension, read by path, and deleted.
   */
  method ReadStream(env: Oracles, rt: Runtime, directory: Option<Path>, input: InputStream, format: Format)
      returns (r: Result<BufferedImage, Error>, ghost spooled: Path, ghost tmp: Path)
    requires input.Valid()
    modifies rt, input
    ensures input.Valid()
    ensures rt.temps == old(rt.temps)
    ensures input.broken ==> r == Failure(StreamFailed) && rt.launched == old(rt.launched) && rt.files == old(rt.files)
    ensures IsStandard(format) ==> unchanged(rt)
    ensures IsStandard(format) && !input.broken ==>
              var decoded := env.decode(old(input.Rest()));
              r == (if decoded.Some? then Success(decoded.value) else Failure(CouldNotDecodeStream))
    ensures !IsStandard(format) && !input.broken ==>
              var command := ReadCommand(env, directory, format, spooled, Absolute(env, tmp));
              var before := old(rt.files)[spooled := old(input.Rest())][tmp := []];
              && spooled !in old(rt.files) && TempName(rt, spooled, "imageeditor-in-", "." + Extension(format))
              && TempName(rt, tmp, "imageeditor-", ".png")
              && rt.launched == old(rt.launched) + [command]
              && r == CliReadResult(env, before, command, tmp, spooled)
              && rt.files == FilesAfterRun(env, command, TimeoutSeconds, before) - {tmp} - {spooled}
  {
    spooled, tmp := "", "";
    if IsStandard(format) {
      var drained := input.ReadAll();
      if drained.Broken? {
        return Failure(StreamFailed), spooled, tmp;
      }
      var decoded := env.decode(drained.bytes);
      if decoded.None? {
        return Failure(CouldNotDecodeStream), spooled, tmp;
      }
      return Success(decoded.value), spooled, tmp;
    }
    r, spooled, tmp := SpoolAndRead(env, rt, directory, input, format);
  }

  /** The WebP and AVIF branch of read(input, format): spool the rest of the stream, read it by path. */
  method SpoolAndRead(env: Oracles, rt: Runtime, directory: Option<Path>, input: InputStream, format: Format)
      returns (r: Result<BufferedImage, Error>, ghost spooled: Path, ghost tmp: Path)
    requires input.Valid() && !IsStandard(format)
    modifies rt, input
    ensures input.Valid()
    ensures rt.temps == old(rt.temps)
    ensures input.broken ==> r == Failure(StreamFailed) && rt.launched == old(rt.launched) && rt.files == old(rt.files)
    ensures !input.broken ==>
              var command := ReadCommand(env, directory, format, spooled, Absolute(env, tmp));
              var before := old(rt.files)[spooled := old(input.Rest())][tmp := []];
              && spooled !in old(rt.files) && TempName(rt, spooled, "imageeditor-in-", "." + Extension(format))
              && TempName(rt, tmp, "imageeditor-", ".png")
              && rt.launched == old(rt.launched) + [command]
              && r == CliReadResult(env, before, command, tmp, spooled)
              && rt.files == FilesAfterRun(env, command, TimeoutSeconds, before) - {tmp} - {spooled}
  {
    tmp := "";
    var spool := rt.CreateTempFile("imageeditor-in-", "." + Extension(format));
    spooled := spool;
    ghost var m: nat :| spool == rt.TempPath("imageeditor-in-", m, "." + Extension(format));
    ghost var rest := input.Rest();
    var drained := input.ReadAll();
    if drained.Broken? {
      r := Failure(StreamFailed);
    } else {
      assert drained.bytes == rest;
      rt.WriteFile(spool, drained.bytes);
      assert rt.files == old(rt.files)[spool := rest];
      SpoolNameKeepsFormat(rt, "imageeditor-in-", m, format);
      assert GetFormat(FileName(spool)) == Success(format);
      r, tmp := Read(env, rt, directory, spool);
    }
    rt.DeleteIfExists(spool);
  }

  // ---------------------------------------------------------------------------
  // Writing.

  /** What ImageIO.write leaves in the temp PNG: the encoded image, or nothing without a PNG writer. */
  function PngBytes(env: Oracles, image: BufferedImage): seq<Byte>
  {
    if env.hasWriter(PNG) then env.encode(image, PNG, CodecDefault) else []
  }

  /** writeStandard(image, format, path, options): the chosen branch's bytes replace the file. */
  method WriteStandard(env: Oracles, rt: Runtime, image: BufferedImage, format: Format, path: Path, options: Options)
      returns (r: Outcome<Error>)
    modifies rt
    ensures StandardBytes(env, image, format, options).Success? ==>
              r == Pass && rt.files == old(rt.files)[path := StandardBytes(env, image, format, options).value]
    ensures StandardBytes(env, image, format, options).Failure? ==>
              r == Fail(StandardBytes(env, image, format, options).error) && rt.files == old(rt.files)
    ensures rt.temps == old(rt.temps) && rt.launched == old(rt.launched) && rt.interrupted == old(rt.interrupted)
  {
    var bytes := StandardBytes(env, image, format, options);
    if bytes.Failure? {
      return Fail(bytes.error);
    }
    rt.WriteFile(path, bytes.value);
    r := Pass;
  }

  /**
   * writeViaCliFromPng(image, output, options, parts): the image as a temp PNG,
   * the tool run on the built command, the temp PNG deleted.
   */
  method WriteViaCliFromPng(env: Oracles, rt: Runtime, image: BufferedImage, quality: Option<real>,
                            parts: seq<Option<string>>)
      returns (r: Outcome<Error>, tmp: Path)
    requires |parts| >= 1 && parts[0].Some?
    modifies rt
    ensures tmp !in old(rt.files) && TempName(rt, tmp, "imageeditor-", ".png")
    ensures var command := FilledCommand(parts, Absolute(env, tmp), quality);
            var before := old(rt.files)[tmp := PngBytes(env, image)];
            && rt.launched == old(rt.launched) + [command]
            && r == OutcomeError(command[0], env.run(command, TimeoutSeconds, before).outcome)
            && rt.files == FilesAfterRun(env, command, TimeoutSeconds, before) - {tmp}
    ensures rt.temps == old(rt.temps)
  {
    tmp := rt.CreateTempFile("imageeditor-", ".png");
    if env.hasWriter(PNG) {
      rt.WriteFile(tmp, env.encode(image, PNG, CodecDefault));
    }
    assert rt.files == old(rt.files)[tmp := PngBytes(env, image)];
    var command := BuildWriteCommand(parts, Absolute(env, tmp), quality);
    FilledCommandShape(parts, Absolute(env, tmp), quality);
    r := RunProcess(env, rt, command);
    rt.DeleteIfExists(tmp);
  }

  /**
   * What write(image, path, format, options) does to the files `files` and the
   * launched commands `launched`, giving the outcome `r`, the files
   * `filesAfter` and the commands `launchedAfter`. A standard format writes
   * the chosen branch's bytes (or nothing, on error) and starts no process.
   * WebP and AVIF put the image's PNG encoding in the fresh temp file `tmp`,
   * launch the encoder command, classify its outcome, and leave `tmp` deleted.
   */
  ghost predicate WriteEffect(env: Oracles, rt: Runtime, directory: Option<Path>, image: BufferedImage, path: Path,
                              format: Format, options: Options, tmp: Path, files: FileMap, launched: seq<seq<string>>,
                              r: Outcome<Error>, filesAfter: FileMap, launchedAfter: seq<seq<string>>)
  {
    if IsStandard(format) then
      var bytes := StandardBytes(env, image, format, options);
      && launchedAfter == launched
      && (bytes.Success? ==> r == Pass && filesAfter == files[path := bytes.value])
      && (bytes.Failure? ==> r == Fail(bytes.error) && filesAfter == files)
    else
      var command := WriteCommand(env, directory, format, path, Absolute(env, tmp), options.quality);
      var before := files[tmp := PngBytes(env, image)];
      && tmp !in files && TempName(rt, tmp, "imageeditor-", ".png")
      && launchedAfter == launched + [command]
      && r == OutcomeError(command[0], env.run(command, TimeoutSeconds, before).outcome)
      && filesAfter == FilesAfterRun(env, command, TimeoutSeconds, before) - {tmp}
  }

  /**
   * write(image, path, format, options): standard formats through writeStandard,
   * WebP and AVIF through their encoder, reading the temp PNG `tmp`.
   */
  method Write(env: Oracles, rt: Runtime, directory: Option<Path>, image: BufferedImage, path: Path, format: Format,
               options: Options)
      returns (r: Outcome<Error>, ghost tmp: Path)
    modifies rt
    ensures rt.temps == old(rt.temps)
    ensures WriteEffect(env, rt, directory, image, path, format, options, tmp, old(rt.files), old(rt.launched),
                        r, rt.files, rt.launched)
  {
    tmp := "";
    if IsStandard(format) {
      r := WriteStandard(env, rt, image, format, path, options);
      return;
    }
    var tool := ResolveToolPath(directory, EncoderTool(format));
    var parts := [Some(tool), None, Some("-o"), Some(Absolute(env, path))];
    var converted;
    r, converted := WriteViaCliFromPng(env, rt, image, options.quality, parts);
    tmp := converted;
    WriteCommandFromParts(env, directory, format, path, Absolute(env, tmp), options.quality);
  }

  /** write(image, path, options): the format comes from the file name, then write(image, path, format, options). */
  method WriteInferred(env: Oracles, rt: Runtime, directory: Option<Path>, image: BufferedImage, path: Path,
                       options: Options)
      returns (r: Outcome<Error>, ghost tmp: Path)
    modifies rt
    ensures rt.temps == old(rt.temps)
    ensures GetFormat(FileName(path)).Failure? ==> r == Fail(GetFormat(FileName(path)).error) && unchanged(rt)
    ensures GetFormat(FileName(path)).Success? ==>
              WriteEffect(env, rt, directory, image, path, GetFormat(FileName(path)).value, options, tmp,
                          old(rt.files), old(rt.launched), r, rt.files, rt.launched)
  {
    tmp := "";
    var format := GetFormat(FileName(path));
    if format.Failure? {
      return Fail(format.error), tmp;
    }
    r, tmp := Write(env, rt, directory, image, path, format.value, options);
  }

  /**
   * write(image, path): the default options, so a standard format gets the
   * codec's own write and an encoder command carries no quality argument.
   */
  method WriteDefaults(env: Oracles, rt: Runtime, directory: Option<Path>, image: BufferedImage, path: Path)
      returns (r: Outcome<Error>, ghost tmp: Path)
    modifies rt
    ensures rt.temps == old(rt.temps)
    ensures GetFormat(FileName(path)).Failure? ==> r == Fail(GetFormat(FileName(path)).error) && unchanged(rt)
    ensures GetFormat(FileName(path)).Success? && IsStandard(GetFormat(FileName(path)).value) ==>
              var format := GetFormat(FileName(path)).value;
              && rt.launched == old(rt.launched)
              && (env.hasWriter(format) ==>
                    r == Pass && rt.files == old(rt.files)[path := env.encode(Flattened(image, format), format, CodecDefault)])
              && (!env.hasWriter(format) ==> r == Fail(NoWriter(Extension(format))) && rt.files == old(rt.files))
    ensures GetFormat(FileName(path)).Success? && !IsStandard(GetFormat(FileName(path)).value) ==>
              var command := WriteCommand(env, directory, GetFormat(FileName(path)).value, path, Absolute(env, tmp), None);
              && rt.launched == old(rt.launched) + [command]
              && r == OutcomeError(command[0], env.run(command, TimeoutSeconds, old(rt.files)[tmp := PngBytes(env, image)]).outcome)
  {
    r, tmp := WriteInferred(env, rt, directory, image, path, Defaults());
  }

  /**
   * write(image, output, format, options): a standard format is encoded onto
   * the stream with every option; WebP and AVIF are written to the temp file
   * `target`, named with the format's extension, which is copied to the
   * stream and deleted. A stream whose write throws gives StreamWriteFailed.
   */
  method WriteStream(env: Oracles, rt: Runtime, directory: Option<Path>, image: BufferedImage, output: OutputStream,
                     format: Format, options: Options)
      returns (r: Outcome<Error>, ghost target: Path, ghost tmp: Path)
    modifies rt, output
    ensures rt.temps == old(rt.temps)
    ensures r.Fail? ==> output.written == old(output.written)
    ensures IsStandard(format) ==> unchanged(rt)
    ensures IsStandard(format) && StreamBytes(env, image, format, options).Success? ==>
              && r == (if output.failing then Fail(StreamWriteFailed) else Pass)
              && output.written == old(output.written) + (if output.failing then [] else StreamBytes(env, image, format, options).value)
    ensures IsStandard(format) && StreamBytes(env, image, format, options).Failure? ==>
              r == Fail(StreamBytes(env, image, format, options).error)
    ensures !IsStandard(format) ==>
              var command := WriteCommand(env, directory, format, target, Absolute(env, tmp), options.quality);
              var before := old(rt.files)[target := []][tmp := PngBytes(env, image)];
              var converted := env.run(command, TimeoutSeconds, before).outcome;
              var after := FilesAfterRun(env, command, TimeoutSeconds, before) - {tmp};
              && target !in old(rt.files) && TempName(rt, target, "imageeditor-out-", "." + Extension(format))
              && TempName(rt, tmp, "imageeditor-", ".png")
              && rt.launched == old(rt.launched) + [command]
              && rt.files == after - {target}
              && (OutcomeError(command[0], converted).Fail? ==> r == OutcomeError(command[0], converted))
              && (OutcomeError(command[0], converted).Pass? && target !in after ==> r == Fail(StreamWriteFailed))
              && (OutcomeError(command[0], converted).Pass? && target in after ==>
                    r == (if output.failing then Fail(StreamWriteFailed) else Pass))
              && (r.Pass? ==> target in after && output.written == old(output.written) + after[target])
  {
    target, tmp := "", "";
    if IsStandard(format) {
      var bytes := StreamBytes(env, image, format, options);
      if bytes.Failure? {
        return Fail(bytes.error), target, tmp;
      }
      var ok := output.Write(bytes.value);
      if !ok {
        return Fail(StreamWriteFailed), target, tmp;
      }
      return Pass, target, tmp;
    }
    var out := rt.CreateTempFile("imageeditor-out-", "." + Extension(format));
    target := out;
    r, tmp := Write(env, rt, directory, image, out, format, options);
    if r.Pass? {
      if out in rt.files {
        var ok := output.Write(rt.files[out]);
        if !ok {
          r := Fail(StreamWriteFailed);
        }
      } else {
        r := Fail(StreamWriteFailed);
      }
    }
    rt.DeleteIfExists(out);
  }
}
