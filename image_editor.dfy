/**
 * ImageEditor: the facade. An editor is an immutable list of operations and
 * output options; it reads an image (from a path or a stream), applies the
 * operations in order, and writes the result, alone or for every supported
 * image of a directory.
 */
module ImageEditor {
  import opened Wrappers
  import opened Errors
  import opened Strings
  import opened Streams
  import opened Images
  import opened ImageFormat
  import opened FormatDetector
  import opened OutputOptions
  import opened Environment
  import opened ImageIOHandler
  import Operations
  import ResizeOperation
  import CropOperation
  import CoverOperation
  import FitOperation

  /** A built editor: its operations, in call order, and its output options. */
  datatype Editor = Editor(operations: seq<Operations.Op>, options: Options)

  // ---------------------------------------------------------------------------
  // The builder.

  class Builder {
    var operations: seq<Operations.Op>
    var quality: Option<real>
    var stripMetadata: bool
    var outputFormat: Option<Format>

    ghost predicate Valid()
      reads this
    {
      quality.Some? ==> InRange(quality.value)
    }

    /** ImageEditor.builder(): no operations, no quality, metadata kept, format inferred. */
    constructor ()
      ensures Valid()
      ensures operations == [] && quality.None? && !stripMetadata && outputFormat.None?
    {
      operations := [];
      quality := None;
      stripMetadata := false;
      outputFormat := None;
    }

    /** resize(width, height): append a Resize, or throw its constructor's error and append nothing. */
    method Resize(width: int, height: int) returns (r: Outcome<Error>)
      requires Valid()
      modifies this
      ensures Valid()
      ensures var made := ResizeOperation.New(width, height);
              && (r.Pass? <==> made.Success?)
              && (made.Success? ==> operations == old(operations) + [Operations.Resize(made.value)])
              && (made.Failure? ==> r == Fail(made.error) && operations == old(operations))
      ensures quality == old(quality) && stripMetadata == old(stripMetadata) && outputFormat == old(outputFormat)
    {
      var made := ResizeOperation.New(width, height);
      if made.Failure? {
        return Fail(made.error);
      }
      operations := operations + [Operations.Resize(made.value)];
      r := Pass;
    }

    /** crop(x, y, width, height). */
    method Crop(x: int, y: int, width: int, height: int) returns (r: Outcome<Error>)
      requires Valid()
      modifies this
      ensures Valid()
      ensures var made := CropOperation.New(x, y, width, height);
              && (r.Pass? <==> made.Success?)
              && (made.Success? ==> operations == old(operations) + [Operations.Crop(made.value)])
              && (made.Failure? ==> r == Fail(made.error) && operations == old(operations))
      ensures quality == old(quality) && stripMetadata == old(stripMetadata) && outputFormat == old(outputFormat)
    {
      var made := CropOperation.New(x, y, width, height);
      if made.Failure? {
        return Fail(made.error);
      }
      operations := operations + [Operations.Crop(made.value)];
      r := Pass;
    }

    /** cover(width, height). */
    method Cover(width: int, height: int) returns (r: Outcome<Error>)
      requires Valid()
      modifies this
      ensures Valid()
      ensures var made := CoverOperation.New(width, height);
              && (r.Pass? <==> made.Success?)
              && (made.Success? ==> operations == old(operations) + [Operations.Cover(made.value)])
              && (made.Failure? ==> r == Fail(made.error) && operations == old(operations))
      ensures quality == old(quality) && stripMetadata == old(stripMetadata) && outputFormat == old(outputFormat)
    {
      var made := CoverOperation.New(width, height);
      if made.Failure? {
        return Fail(made.error);
      }
      operations := operations + [Operations.Cover(made.value)];
      r := Pass;
    }

    /** fit(maxWidth, maxHeight). */
    method Fit(maxWidth: int, maxHeight: int) returns (r: Outcome<Error>)
      requires Valid()
      modifies this
      ensures Valid()
      ensures var made := FitOperation.New(maxWidth, maxHeight);
              && (r.Pass? <==> made.Success?)
              && (made.Success? ==> operations == old(operations) + [Operations.Fit(made.value)])
              && (made.Failure? ==> r == Fail(made.error) && operations == old(operations))
      ensures quality == old(quality) && stripMetadata == old(stripMetadata) && outputFormat == old(outputFormat)
    {
      var made := FitOperation.New(maxWidth, maxHeight);
      if made.Failure? {
        return Fail(made.error);
      }
      operations := operations + [Operations.Fit(made.value)];
      r := Pass;
    }

    /** quality(q): the same check as the options builder; a rejected value changes nothing. */
    method Quality(q: JFloat) returns (r: Outcome<Error>)
      requires Valid()
      modifies this
      ensures Valid()
      ensures r.Pass? <==> CheckQuality(q).Success?
      ensures r.Pass? ==> quality == Some(q.value)
      ensures r.Fail? ==> r == Fail(InvalidQuality) && quality == old(quality)
      ensures operations == old(operations) && stripMetadata == old(stripMetadata) && outputFormat == old(outputFormat)
    {
      var checked := CheckQuality(q);
      if checked.Failure? {
        return Fail(checked.error);
      }
      quality := Some(checked.value);
      r := Pass;
    }

    /** stripMetadata(): there is no way back to false. */
    method StripMetadata()
      requires Valid()
      modifies this
      ensures Valid()
      ensures stripMetadata
      ensures operations == old(operations) && quality == old(quality) && outputFormat == old(outputFormat)
    {
      stripMetadata := true;
    }

    /** outputFormat(format); null clears it. */
    method OutputFormat(format: Option<Format>)
      requires Valid()
      modifies this
      ensures Valid()
      ensures outputFormat == format
      ensures operations == old(operations) && quality == old(quality) && stripMetadata == old(stripMetadata)
    {
      outputFormat := format;
    }

    /**
     * build(): the options through a fresh OutputOptions builder, and a copy of
     * the operation list; the builder itself is left as it is.
     */
    method Build() returns (e: Editor)
      requires Valid()
      ensures e == Editor(operations, Options(quality, stripMetadata, outputFormat))
      ensures WellFormed(e.options)
    {
      var optBuilder := new OutputOptions.Builder();
      if quality.Some? {
        var accepted := optBuilder.Quality(Finite(quality.value));
        assert accepted.Pass?;
      }
      optBuilder.StripMetadata(stripMetadata);
      optBuilder.OutputFormat(outputFormat);
      var opts := optBuilder.Build();
      e := Editor(operations, opts);
    }
  }

  /**
   * A built editor is a snapshot: operations added to the builder afterwards
   * are not in it.
   */
  method BuildThenExtend(b: Builder) returns (e: Editor)
    requires b.Valid()
    modifies b
    ensures e.operations == old(b.operations)
    ensures |b.operations| == |old(b.operations)| + 1
  {
    e := b.Build();
    var added := b.Resize(10, 10);
    assert added.Pass?;
  }

  // ---------------------------------------------------------------------------
  // Processing one image.

  /** The loop of process: each operation applied to the result of the previous one. */
  method ApplyOperations(ops: seq<Operations.Op>, image: BufferedImage) returns (r: Result<BufferedImage, Error>)
    ensures r == Operations.ApplyAll(ops, image)
  {
    var current := image;
    for i := 0 to |ops|
      invariant Operations.ApplyAll(ops, image) == Operations.ApplyAll(ops[i..], current)
    {
      assert ops[i..][1..] == ops[i + 1..];
      var next := Operations.Apply(ops[i], current);
      if next.Failure? {
        return Failure(next.error);
      }
      current := next.value;
    }
    assert ops[|ops|..] == [];
    return Success(current);
  }

  /**
   * The format the result is written in: the explicit output format, else the
   * fallback (the input file's extension format, or the detected format of a
   * stream).
   */
  function OutputFormatFor(options: Options, fallback: Format): (f: Format)
    ensures options.outputFormat.Some? ==> f == options.outputFormat.value
    ensures options.outputFormat.None? ==> f == fallback
  {
    match options.outputFormat
    case Some(explicit) => explicit
    case None => fallback
  }

  /** What processing an already decoded image yields, before writing. */
  function Processed(editor: Editor, decoded: Result<BufferedImage, Error>): Result<BufferedImage, Error>
  {
    match decoded
    case Failure(e) => Failure(e)
    case Success(image) => Operations.ApplyAll(editor.operations, image)
  }

  /**
   * process(inputPath, outputPath): read, apply the operations, write in the
   * resolved format. The end-to-end effect is stated for a standard input and
   * output format.
   */
  method ProcessPath(env: Oracles, rt: Runtime, directory: Option<Path>, editor: Editor, inputPath: Path, outputPath: Path)
      returns (r: Outcome<Error>)
    modifies rt
    ensures rt.temps == old(rt.temps)
    ensures GetFormat(FileName(inputPath)).Failure? ==> r == Fail(GetFormat(FileName(inputPath)).error) && unchanged(rt)
    ensures GetFormat(FileName(inputPath)).Success? && IsStandard(GetFormat(FileName(inputPath)).value) ==>
              var out := Processed(editor, ReadStandard(env, old(rt.files), inputPath, inputPath));
              var format := OutputFormatFor(editor.options, GetFormat(FileName(inputPath)).value);
              && (out.Failure? ==> r == Fail(out.error) && unchanged(rt))
              && (out.Success? && IsStandard(format) ==>
                    var bytes := StandardBytes(env, out.value, format, editor.options);
                    && r == (if bytes.Success? then Pass else Fail(bytes.error))
                    && rt.files == (if bytes.Success? then old(rt.files)[outputPath := bytes.value] else old(rt.files)))
  {
    var read, readTmp := Read(env, rt, directory, inputPath);
    if read.Failure? {
      return Fail(read.error);
    }
    var out := ApplyOperations(editor.operations, read.value);
    if out.Failure? {
      return Fail(out.error);
    }
    var inputFormat := GetFormat(FileName(inputPath));
    assert inputFormat.Success?;
    var format := OutputFormatFor(editor.options, inputFormat.value);
    var written, writeTmp := Write(env, rt, directory, out.value, outputPath, format, editor.options);
    r := written;
  }

  /**
   * process(input, output): detect the format from the stream's first bytes
   * (through a BufferedInputStream, so nothing is lost), fail before decoding
   * when nothing is recognised, then read, apply and write. The end-to-end
   * effect is stated for a standard input and output format.
   */
  method ProcessStream(env: Oracles, rt: Runtime, directory: Option<Path>, editor: Editor, input: InputStream,
                       output: OutputStream)
      returns (r: Outcome<Error>)
    requires input.Valid()
    modifies rt, input, output
    ensures rt.temps == old(rt.temps)
    ensures var detected := if input.broken then None else Classify(Header(old(input.Rest())));
            && (detected.None? ==> r == Fail(FormatUndetectable) && unchanged(rt) && output.written == old(output.written))
            && (detected.Some? && IsStandard(detected.value) ==>
                  var decoded := env.decode(old(input.Rest()));
                  var out := Processed(editor, if decoded.Some? then Success(decoded.value) else Failure(CouldNotDecodeStream));
                  var format := OutputFormatFor(editor.options, detected.value);
                  && (out.Failure? ==> r == Fail(out.error) && unchanged(rt) && output.written == old(output.written))
                  && (out.Success? && IsStandard(format) ==>
                        var bytes := StreamBytes(env, out.value, format, editor.options);
                        && unchanged(rt)
                        && r == (if bytes.Failure? then Fail(bytes.error)
                                 else if output.failing then Fail(StreamWriteFailed) else Pass)
                        && output.written == old(output.written) + (if r.Pass? then bytes.value else [])))
  {
    var buffered := input;
    if !input.markSupported {
      buffered := Buffer(input);
    }
    ghost var content := buffered.Rest();
    assert content == old(input.Rest());
    var detected := DetectFormatStream(buffered);
    if detected.None? {
      return Fail(FormatUndetectable);
    }
    assert buffered.Rest() == content;
    var read, spooled, readTmp := ReadStream(env, rt, directory, buffered, detected.value);
    if read.Failure? {
      return Fail(read.error);
    }
    var out := ApplyOperations(editor.operations, read.value);
    if out.Failure? {
      return Fail(out.error);
    }
    var format := OutputFormatFor(editor.options, detected.value);
    var written, target, writeTmp := WriteStream(env, rt, directory, out.value, output, format, editor.options);
    r := written;
  }

  // ---------------------------------------------------------------------------
  // Processing a directory.

  /**
   * resolveOutputFile(inputFile, outputDir): the input's file name in the
   * output directory; with an explicit format, the text from the last dot on
   * is replaced by the format's canonical extension (appended when there is
   * no dot).
   */
  function ResolveOutputFile(options: Options, inputFile: Path, outputDir: Path): Path
  {
    var name := FileName(inputFile);
    match options.outputFormat
    case None => Resolve(outputDir, name)
    case Some(f) =>
      var dot := LastIndexOf(name, '.');
      var stem := if dot >= 0 then name[..dot] else name;
      Resolve(outputDir, stem + "." + Extension(f))
  }

  /** Without an explicit format the file keeps its name. */
  lemma OutputKeepsNameWithoutFormat(options: Options, inputFile: Path, outputDir: Path)
    requires options.outputFormat.None?
    ensures FileName(ResolveOutputFile(options, inputFile, outputDir)) == FileName(inputFile)
  {
    FileNameOfResolve(outputDir, FileName(inputFile));
  }

  /**
   * With an explicit format the output name always carries that format's
   * extension, so reading it back by name finds the format it was written in.
   */
  lemma OutputNameNamesFormat(options: Options, inputFile: Path, outputDir: Path)
    requires options.outputFormat.Some?
    ensures GetFormat(FileName(ResolveOutputFile(options, inputFile, outputDir))) == Success(options.outputFormat.value)
  {
    var f := options.outputFormat.value;
    var name := FileName(inputFile);
    var dot := LastIndexOf(name, '.');
    var stem := if dot >= 0 then name[..dot] else name;
    assert '/' !in stem by {
      forall i | 0 <= i < |stem| ensures stem[i] != '/' {
        assert stem[i] == name[i];
      }
    }
    NoSlashInCanonicalName(stem, f);
    FileNameOfResolve(outputDir, stem + "." + Extension(f));
    GetFormatOfCanonicalName(stem, f);
  }

  /**
   * With an explicit format, the extension after the last dot is replaced by
   * the format's canonical one; the stem keeps dots of its own.
   */
  lemma ReplacesLastExtension(options: Options, inputDir: Path, stem: string, ext: string, outputDir: Path)
    requires options.outputFormat.Some?
    requires '/' !in stem && '/' !in ext && '.' !in ext
    ensures ResolveOutputFile(options, Resolve(inputDir, stem + "." + ext), outputDir)
            == Resolve(outputDir, stem + "." + Extension(options.outputFormat.value))
  {
    var name := stem + "." + ext;
    assert '/' !in name by {
      forall i | 0 <= i < |name| ensures name[i] != '/' {
        if i < |stem| {
          assert name[i] == stem[i];
        } else if i > |stem| {
          assert name[i] == ext[i - |stem| - 1];
        }
      }
    }
    FileNameOfResolve(inputDir, name);
    LastDotOfJoin(stem, ext);
    assert name[..|stem|] == stem;
  }

  /** A name without a dot gets the extension appended. */
  lemma AppendsMissingExtension(options: Options, inputDir: Path, name: string, outputDir: Path)
    requires options.outputFormat.Some?
    requires '/' !in name && '.' !in name
    ensures ResolveOutputFile(options, Resolve(inputDir, name), outputDir)
            == Resolve(outputDir, name + "." + Extension(options.outputFormat.value))
  {
    FileNameOfResolve(inputDir, name);
  }

  /** isSupportedImage(path): a recognised extension whose format is supported; any error means false. */
  function IsSupportedImage(env: Oracles, files: FileMap, directory: Option<Path>, path: Path): (r: bool)
    ensures r <==> GetFormat(FileName(path)).Success?
                   && IsFormatSupported(env, files, directory, GetFormat(FileName(path)).value)
  {
    var format := GetFormat(FileName(path));
    format.Success? && IsFormatSupported(env, files, directory, format.value)
  }

  /** A standard extension is always accepted. */
  lemma StandardImageSupported(env: Oracles, files: FileMap, directory: Option<Path>, dir: Path, stem: string, f: Format)
    requires '/' !in stem && IsStandard(f)
    ensures IsSupportedImage(env, files, directory, Resolve(dir, stem + "." + Extension(f)))
  {
    NoSlashInCanonicalName(stem, f);
    FileNameOfResolve(dir, stem + "." + Extension(f));
    GetFormatOfCanonicalName(stem, f);
  }

  /** An unknown extension is never accepted. */
  lemma UnknownExtensionUnsupported(env: Oracles, files: FileMap, directory: Option<Path>, dir: Path, stem: string)
    requires '/' !in stem
    ensures !IsSupportedImage(env, files, directory, Resolve(dir, stem + ".xyz"))
  {
    var bad := stem + ".xyz";
    assert '/' !in bad by {
      forall i | 0 <= i < |bad| ensures bad[i] != '/' {
        if i < |stem| {
          assert bad[i] == stem[i];
        }
      }
    }
    FileNameOfResolve(dir, bad);
    GetFormatUnknownExtension(stem);
  }

  /** Neither is a name without a dot. */
  lemma NoExtensionUnsupported(env: Oracles, files: FileMap, directory: Option<Path>, dir: Path, name: string)
    requires '/' !in name && '.' !in name
    ensures !IsSupportedImage(env, files, directory, Resolve(dir, name))
  {
    FileNameOfResolve(dir, name);
  }

  /** The entries of xs that keep accepts, in their order. */
  function Filter(xs: seq<Path>, keep: Path -> bool): (r: seq<Path>)
    ensures |r| <= |xs|
    decreases |xs|
  {
    if xs == [] then []
    else if keep(xs[0]) then [xs[0]] + Filter(xs[1..], keep)
    else Filter(xs[1..], keep)
  }

  /** Exactly the accepted entries survive. */
  lemma {:induction false} FilterMembers(xs: seq<Path>, keep: Path -> bool, p: Path)
    ensures p in Filter(xs, keep) <==> p in xs && keep(p)
    decreases |xs|
  {
    if xs != [] {
      FilterMembers(xs[1..], keep, p);
      assert xs == [xs[0]] + xs[1..];
    }
  }

  /** Filtering distributes over concatenation, which is what keeps the listing order. */
  lemma {:induction false} FilterAppend(a: seq<Path>, b: seq<Path>, keep: Path -> bool)
    ensures Filter(a + b, keep) == Filter(a, keep) + Filter(b, keep)
    decreases |a|
  {
    if a == [] {
      assert a + b == b;
    } else {
      assert (a + b)[1..] == a[1..] + b;
      FilterAppend(a[1..], b, keep);
    }
  }

  /** One more entry at the end is kept or dropped on its own. */
  lemma FilterSnoc(xs: seq<Path>, x: Path, keep: Path -> bool)
    ensures Filter(xs + [x], keep) == Filter(xs, keep) + (if keep(x) then [x] else [])
  {
    FilterAppend(xs, [x], keep);
    assert [x][1..] == [];
  }

  /** Whether a directory entry is processed: a regular file and a supported image. */
  function Selected(env: Oracles, files: FileMap, directory: Option<Path>): Path -> bool
  {
    entry => entry in files && IsSupportedImage(env, files, directory, entry)
  }

  /** The loop that collects the directory stream's images. */
  method SelectImageFiles(env: Oracles, rt: Runtime, directory: Option<Path>, entries: seq<Path>)
      returns (selected: seq<Path>)
    ensures selected == Filter(entries, Selected(env, rt.files, directory))
  {
    var keep := Selected(env, rt.files, directory);
    selected := [];
    for i := 0 to |entries|
      invariant selected == Filter(entries[..i], keep)
    {
      var f := entries[i];
      assert entries[..i + 1] == entries[..i] + [f];
      FilterSnoc(entries[..i], f, keep);
      if keep(f) {
        selected := selected + [f];
      }
    }
    assert entries[..|entries|] == entries;
  }

  /** An outcome and the files as it leaves them. */
  datatype Effect = Effect(outcome: Outcome<Error>, files: FileMap)

  /**
   * A job whose whole effect the model determines: its name names no format
   * (so it fails at once), or it is read and written with the built-in codecs.
   */
  predicate StandardJob(editor: Editor, inputPath: Path)
  {
    var g := GetFormat(FileName(inputPath));
    g.Failure? || (IsStandard(g.value) && IsStandard(OutputFormatFor(editor.options, g.value)))
  }

  /** What process(inputPath, outputPath) yields and leaves behind, for a standard job. */
  function ProcessEffect(env: Oracles, files: FileMap, editor: Editor, inputPath: Path, outputPath: Path): Effect
    requires StandardJob(editor, inputPath)
  {
    var g := GetFormat(FileName(inputPath));
    if g.Failure? then Effect(Fail(g.error), files)
    else
      var out := Processed(editor, ReadStandard(env, files, inputPath, inputPath));
      if out.Failure? then Effect(Fail(out.error), files)
      else
        var bytes := StandardBytes(env, out.value, OutputFormatFor(editor.options, g.value), editor.options);
        if bytes.Failure? then Effect(Fail(bytes.error), files)
        else Effect(Pass, files[outputPath := bytes.value])
  }

  /** A standard job that fails leaves the files alone; one that passes writes its output file and nothing else. */
  lemma ProcessEffectWritesOnlyOutput(env: Oracles, files: FileMap, editor: Editor, inputPath: Path, outputPath: Path)
    requires StandardJob(editor, inputPath)
    ensures var e := ProcessEffect(env, files, editor, inputPath, outputPath);
            && (e.outcome.Fail? ==> e.files == files)
            && (e.outcome.Pass? ==> outputPath in e.files && e.files == files[outputPath := e.files[outputPath]])
  {
    var g := GetFormat(FileName(inputPath));
    if g.Success? {
      var out := Processed(editor, ReadStandard(env, files, inputPath, inputPath));
      if out.Success? {
        var bytes := StandardBytes(env, out.value, OutputFormatFor(editor.options, g.value), editor.options);
        if bytes.Success? {
          var written := files[outputPath := bytes.value];
          assert ProcessEffect(env, files, editor, inputPath, outputPath) == Effect(Pass, written);
          assert written[outputPath] == bytes.value;
        }
      }
    }
  }

  /** processOne(inputFile, outputDir): process into the resolved output file. */
  method ProcessOne(env: Oracles, rt: Runtime, directory: Option<Path>, editor: Editor, inputFile: Path,
                    outputDir: Path)
      returns (r: Outcome<Error>)
    modifies rt
    ensures rt.temps == old(rt.temps)
    ensures GetFormat(FileName(inputFile)).Failure? ==> r == Fail(GetFormat(FileName(inputFile)).error) && unchanged(rt)
    ensures StandardJob(editor, inputFile) ==>
              Effect(r, rt.files)
              == ProcessEffect(env, old(rt.files), editor, inputFile, ResolveOutputFile(editor.options, inputFile, outputDir))
  {
    var outputFile := ResolveOutputFile(editor.options, inputFile, outputDir);
    r := ProcessPath(env, rt, directory, editor, inputFile, outputFile);
  }

  /**
   * One file's turn in the batch: processOne's effect on a standard job. The
   * batch is only stated for standard batches, so the second branch is never
   * consulted; it makes the step total.
   */
  function JobStep(env: Oracles, editor: Editor, outputDir: Path): (FileMap, Path) -> Effect
  {
    (files: FileMap, f: Path) =>
      if StandardJob(editor, f) then ProcessEffect(env, files, editor, f, ResolveOutputFile(editor.options, f, outputDir))
      else Effect(Pass, files)
  }

  /** The result of a sequential batch: its outcome, the files it leaves and how many files it processed. */
  datatype BatchResult = BatchResult(outcome: Outcome<Error>, files: FileMap, attempted: nat)

  /** A batch result seen from `n` files earlier: the same outcome and files, `n` more files processed. */
  function After(n: nat, b: BatchResult): BatchResult
  {
    b.(attempted := n + b.attempted)
  }

  /** Every file of the batch is a standard job. */
  predicate StandardBatch(editor: Editor, imageFiles: seq<Path>)
  {
    forall i :: 0 <= i < |imageFiles| ==> StandardJob(editor, imageFiles[i])
  }

  /** The sequential loop: each file's step runs on the files the previous ones left, until one fails. */
  function Batch(step: (FileMap, Path) -> Effect, files: FileMap, imageFiles: seq<Path>): BatchResult
    decreases |imageFiles|
  {
    if imageFiles == [] then BatchResult(Pass, files, 0)
    else
      var one := step(files, imageFiles[0]);
      if one.outcome.Fail? then BatchResult(one.outcome, one.files, 1)
      else
        var rest := Batch(step, one.files, imageFiles[1..]);
        BatchResult(rest.outcome, rest.files, rest.attempted + 1)
  }

  /** A batch passes after processing every file, and fails after processing at least one. */
  lemma {:induction false} BatchAttempted(step: (FileMap, Path) -> Effect, files: FileMap, imageFiles: seq<Path>)
    ensures var b := Batch(step, files, imageFiles);
            && b.attempted <= |imageFiles|
            && (b.outcome.Pass? ==> b.attempted == |imageFiles|)
            && (b.outcome.Fail? ==> b.attempted >= 1)
    decreases |imageFiles|
  {
    if imageFiles != [] {
      var one := step(files, imageFiles[0]);
      if one.outcome.Pass? {
        BatchAttempted(step, one.files, imageFiles[1..]);
      }
    }
  }

  /** The batch cut at any point is two batches; a failure in the first part means the rest never runs. */
  lemma {:induction false} BatchAppend(step: (FileMap, Path) -> Effect, files: FileMap, a: seq<Path>, c: seq<Path>)
    ensures var first := Batch(step, files, a);
            && (first.outcome.Fail? ==> Batch(step, files, a + c) == first)
            && (first.outcome.Pass? ==>
                  var rest := Batch(step, first.files, c);
                  Batch(step, files, a + c) == rest.(attempted := |a| + rest.attempted))
    decreases |a|
  {
    if a == [] {
      assert a + c == c;
    } else {
      assert (a + c)[0] == a[0] && (a + c)[1..] == a[1..] + c;
      var one := step(files, a[0]);
      if one.outcome.Pass? {
        BatchAppend(step, one.files, a[1..], c);
      }
    }
  }

  /** `after` is `before`, or `before` with `target` written. */
  predicate WritesAtMost(before: FileMap, after: FileMap, target: Path)
  {
    after == before || (target in after && after == before[target := after[target]])
  }

  /** A batch of steps that each write at most their own target changes no other file. */
  lemma {:induction false} BatchWritesAtMost(step: (FileMap, Path) -> Effect, target: Path -> Path, files: FileMap,
                                             imageFiles: seq<Path>, p: Path)
    requires forall fs: FileMap, i :: 0 <= i < |imageFiles| ==> WritesAtMost(fs, step(fs, imageFiles[i]).files, target(imageFiles[i]))
    requires forall i :: 0 <= i < |imageFiles| ==> target(imageFiles[i]) != p
    ensures var b := Batch(step, files, imageFiles);
            (p in b.files <==> p in files) && (p in files ==> b.files[p] == files[p])
    decreases |imageFiles|
  {
    if imageFiles != [] {
      var one := step(files, imageFiles[0]);
      assert WritesAtMost(files, one.files, target(imageFiles[0]));
      if one.outcome.Pass? {
        var rest := imageFiles[1..];
        assert forall i :: 0 <= i < |rest| ==> rest[i] == imageFiles[i + 1];
        BatchWritesAtMost(step, target, one.files, rest, p);
      }
    }
  }

  /** A standard batch changes no file other than the output files of the files it lists. */
  lemma BatchWritesOnlyOutputs(env: Oracles, files: FileMap, editor: Editor, imageFiles: seq<Path>, outputDir: Path,
                               p: Path)
    requires StandardBatch(editor, imageFiles)
    requires forall i :: 0 <= i < |imageFiles| ==> ResolveOutputFile(editor.options, imageFiles[i], outputDir) != p
    ensures var b := Batch(JobStep(env, editor, outputDir), files, imageFiles);
            (p in b.files <==> p in files) && (p in files ==> b.files[p] == files[p])
  {
    var step := JobStep(env, editor, outputDir);
    var target := (f: Path) => ResolveOutputFile(editor.options, f, outputDir);
    forall fs: FileMap, i | 0 <= i < |imageFiles|
      ensures WritesAtMost(fs, step(fs, imageFiles[i]).files, target(imageFiles[i]))
    {
      var f := imageFiles[i];
      assert StandardJob(editor, f);
      ProcessEffectWritesOnlyOutput(env, fs, editor, f, target(f));
      assert step(fs, f) == ProcessEffect(env, fs, editor, f, target(f));
    }
    BatchWritesAtMost(step, target, files, imageFiles, p);
  }

  /** One turn of the loop: processOne on the first remaining file, which is one step of Batch. */
  method ProcessFirst(env: Oracles, rt: Runtime, directory: Option<Path>, editor: Editor, remaining: seq<Path>,
                      outputDir: Path)
      returns (r: Outcome<Error>)
    requires remaining != []
    modifies rt
    ensures rt.temps == old(rt.temps)
    ensures StandardJob(editor, remaining[0]) ==>
              var step := JobStep(env, editor, outputDir);
              && (r.Fail? ==> Batch(step, old(rt.files), remaining) == BatchResult(r, rt.files, 1))
              && (r.Pass? ==>
                    Batch(step, old(rt.files), remaining) == After(1, Batch(step, rt.files, remaining[1..])))
  {
    ghost var before := rt.files;
    r := ProcessOne(env, rt, directory, editor, remaining[0], outputDir);
    if StandardJob(editor, remaining[0]) {
      assert JobStep(env, editor, outputDir)(before, remaining[0]) == Effect(r, rt.files);
    }
  }

  /** Moving the loop index one file further along the list. */
  lemma Advance(xs: seq<Path>, i: nat)
    requires i < |xs|
    ensures xs[..i + 1] == xs[..i] + [xs[i]]
    ensures xs[i..][0] == xs[i] && xs[i..][1..] == xs[i + 1..]
  {
    assert xs[..i + 1] == xs[..i] + [xs[i]];
  }

  /**
   * The sequential branch: processOne on each file in order, stopping at the
   * first failure; `attempted` is the files processed, the failing one last.
   * For standard jobs the outcome, the files and the number processed are
   * those of Batch.
   */
  method ProcessAll(env: Oracles, rt: Runtime, directory: Option<Path>, editor: Editor, imageFiles: seq<Path>,
                    outputDir: Path)
      returns (r: Outcome<Error>, ghost attempted: seq<Path>)
    modifies rt
    ensures rt.temps == old(rt.temps)
    ensures |attempted| <= |imageFiles| && attempted == imageFiles[..|attempted|]
    ensures r.Pass? ==> attempted == imageFiles
    ensures r.Fail? ==> |attempted| >= 1
    ensures StandardBatch(editor, imageFiles) ==>
              var b := Batch(JobStep(env, editor, outputDir), old(rt.files), imageFiles);
              r == b.outcome && rt.files == b.files && |attempted| == b.attempted
  {
    attempted := [];
    ghost var standard := StandardBatch(editor, imageFiles);
    ghost var step := JobStep(env, editor, outputDir);
    for i := 0 to |imageFiles|
      invariant rt.temps == old(rt.temps)
      invariant attempted == imageFiles[..i]
      invariant standard ==> Batch(step, old(rt.files), imageFiles) == After(i, Batch(step, rt.files, imageFiles[i..]))
    {
      Advance(imageFiles, i);
      attempted := attempted + [imageFiles[i]];
      if standard {
        assert StandardJob(editor, imageFiles[i]);
      }
      var one := ProcessFirst(env, rt, directory, editor, imageFiles[i..], outputDir);
      if one.Fail? {
        assert attempted == imageFiles[..i + 1];
        return one, attempted;
      }
    }
    assert imageFiles[..|imageFiles|] == imageFiles;
    r := Pass;
  }

  /**
   * processDirectory(inputDir, outputDir), sequentially: the input must be a
   * directory, then the output directory is created, then the listing is
   * filtered and every selected file processed in listing order; the first
   * failure ends the batch. `attempted` is the files processed, the failing
   * one last.
   */
  method ProcessDirectory(env: Oracles, rt: Runtime, directory: Option<Path>, editor: Editor, inputDir: Path,
                          outputDir: Path)
      returns (r: Outcome<Error>, ghost attempted: seq<Path>)
    modifies rt
    ensures rt.temps == old(rt.temps)
    ensures !env.isDirectory(inputDir) ==> r == Fail(NotADirectory(inputDir)) && unchanged(rt)
    ensures env.isDirectory(inputDir) && !env.canCreateDirectories(outputDir) ==>
              r == Fail(CouldNotCreateDirectory(outputDir)) && unchanged(rt)
    ensures env.isDirectory(inputDir) && env.canCreateDirectories(outputDir) && env.listing(inputDir).None? ==>
              r == Fail(ListingFailed(inputDir)) && unchanged(rt)
    ensures env.isDirectory(inputDir) && env.canCreateDirectories(outputDir) && env.listing(inputDir).Some? ==>
              var selected := Filter(env.listing(inputDir).value, Selected(env, old(rt.files), directory));
              && |attempted| <= |selected| && attempted == selected[..|attempted|]
              && (r.Pass? ==> attempted == selected)
              && (r.Fail? ==> |attempted| >= 1)
              && (StandardBatch(editor, selected) ==>
                    var b := Batch(JobStep(env, editor, outputDir), old(rt.files), selected);
                    r == b.outcome && rt.files == b.files && |attempted| == b.attempted)
  {
    attempted := [];
    if !env.isDirectory(inputDir) {
      return Fail(NotADirectory(inputDir)), attempted;
    }
    if !env.canCreateDirectories(outputDir) {
      return Fail(CouldNotCreateDirectory(outputDir)), attempted;
    }
    var listing := env.listing(inputDir);
    if listing.None? {
      return Fail(ListingFailed(inputDir)), attempted;
    }
    var imageFiles := SelectImageFiles(env, rt, directory, listing.value);
    r, attempted := ProcessAll(env, rt, directory, editor, imageFiles, outputDir);
  }
}
