/**
 * FormatDetector: classifies an image by the first (at most) twelve bytes of its
 * content, with the file-name extension as the fallback.
 */
module FormatDetector {
  import opened Wrappers
  import opened Errors
  import opened Strings
  import opened ImageFormat
  import opened Streams

  /** The size of the header buffer. */
  const HeaderSize: nat := 12

  function Min(a: int, b: int): int
  {
    if a <= b then a else b
  }

  /** The bytes the header loop collects from content that starts with `data`. */
  function Header(data: seq<Byte>): (p: seq<Byte>)
    ensures |p| == Min(|data|, HeaderSize) && p == data[..|p|]
  {
    data[..Min(|data|, HeaderSize)]
  }

  /** The 12-byte buffer after the bytes p were read into a fresh (zeroed) array. */
  function Pad(p: seq<Byte>): (h: seq<Byte>)
    requires |p| <= HeaderSize
    ensures |h| == HeaderSize
    ensures forall i :: 0 <= i < |p| ==> h[i] == p[i]
    ensures forall i :: |p| <= i < HeaderSize ==> h[i] == 0
  {
    p + seq(HeaderSize - |p|, _ => 0)
  }

  /**
   * The signature tests of detectFromMagicBytes on the buffer h of which the
   * first n bytes were read, in detectFromMagicBytes' order: the first match wins.
   */
  function Magic(h: seq<Byte>, n: nat): Option<Format>
    requires |h| == HeaderSize && n <= HeaderSize
  {
    if n < 3 then None
    // PNG
    else if n >= 4 && h[0] == 0x89 && h[1] == 0x50 && h[2] == 0x4E && h[3] == 0x47 then Some(PNG)
    // JPEG
    else if h[0] == 0xFF && h[1] == 0xD8 && h[2] == 0xFF then Some(JPEG)
    // GIF
    else if n >= 4 && h[0] == 0x47 && h[1] == 0x49 && h[2] == 0x46 && h[3] == 0x38 then Some(GIF)
    // BMP
    else if h[0] == 0x42 && h[1] == 0x4D then Some(BMP)
    // TIFF, little- and big-endian
    else if n >= 4 && h[0] == 0x49 && h[1] == 0x49 && h[2] == 0x2A && h[3] == 0x00 then Some(TIFF)
    else if n >= 4 && h[0] == 0x4D && h[1] == 0x4D && h[2] == 0x00 && h[3] == 0x2A then Some(TIFF)
    // WebP: "RIFF" at 0 and "WEBP" at 8
    else if n >= 12 && h[0] == 0x52 && h[1] == 0x49 && h[2] == 0x46 && h[3] == 0x46
            && h[8] == 0x57 && h[9] == 0x45 && h[10] == 0x42 && h[11] == 0x50 then Some(WEBP)
    // AVIF: "ftyp" at 4 and the brand at 8 decoded as US-ASCII
    else if n >= 12 && h[4] == 0x66 && h[5] == 0x74 && h[6] == 0x79 && h[7] == 0x70
            && (h[8..12] == Avif || h[8..12] == Avis || h[8..12] == Mif1) then Some(AVIF)
    else None
  }

  // The byte values of the ASCII strings the signatures mention.
  const Riff: seq<Byte> := [0x52, 0x49, 0x46, 0x46]  // "RIFF"
  const Webp: seq<Byte> := [0x57, 0x45, 0x42, 0x50]  // "WEBP"
  const Ftyp: seq<Byte> := [0x66, 0x74, 0x79, 0x70]  // "ftyp"
  const Avif: seq<Byte> := [0x61, 0x76, 0x69, 0x66]  // "avif"
  const Avis: seq<Byte> := [0x61, 0x76, 0x69, 0x73]  // "avis"
  const Mif1: seq<Byte> := [0x6D, 0x69, 0x66, 0x31]  // "mif1"

  // ---------------------------------------------------------------------------
  // The reference classifier: a table of signatures, searched in declaration order.

  /** `bytes` must occur at `offset`. */
  datatype Pattern = Pattern(offset: nat, bytes: seq<Byte>)

  /** p holds the pattern; the bytes must actually have been read. */
  predicate Matches(p: seq<Byte>, pat: Pattern)
  {
    pat.offset + |pat.bytes| <= |p| && p[pat.offset..pat.offset + |pat.bytes|] == pat.bytes
  }

  // The remaining signature patterns.
  const PngMagic: seq<Byte> := [0x89, 0x50, 0x4E, 0x47]  // "\x89PNG"
  const JpegMagic: seq<Byte> := [0xFF, 0xD8, 0xFF]       // SOI and the next marker's FF
  const GifMagic: seq<Byte> := [0x47, 0x49, 0x46, 0x38]  // "GIF8"
  const BmpMagic: seq<Byte> := [0x42, 0x4D]              // "BM"
  const TiffLE: seq<Byte> := [0x49, 0x49, 0x2A, 0x00]    // "II*\0"
  const TiffBE: seq<Byte> := [0x4D, 0x4D, 0x00, 0x2A]    // "MM\0*"

  /** The signature table: which patterns identify each format. */
  predicate HasSignature(f: Format, p: seq<Byte>)
  {
    match f
    case PNG => Matches(p, Pattern(0, PngMagic))
    case JPEG => Matches(p, Pattern(0, JpegMagic))
    case GIF => Matches(p, Pattern(0, GifMagic))
    case BMP => Matches(p, Pattern(0, BmpMagic))
    case TIFF => Matches(p, Pattern(0, TiffLE)) || Matches(p, Pattern(0, TiffBE))
    case WEBP => Matches(p, Pattern(0, Riff)) && Matches(p, Pattern(8, Webp))
    case AVIF => Matches(p, Pattern(4, Ftyp))
                 && (Matches(p, Pattern(8, Avif)) || Matches(p, Pattern(8, Avis)) || Matches(p, Pattern(8, Mif1)))
  }

  /** The first format of fs whose signature p carries. */
  function FirstMatch(fs: seq<Format>, p: seq<Byte>): (r: Option<Format>)
    ensures r.None? <==> forall i :: 0 <= i < |fs| ==> !HasSignature(fs[i], p)
    ensures r.Some? ==> r.value in fs && HasSignature(r.value, p)
  {
    if fs == [] then None
    else if HasSignature(fs[0], p) then Some(fs[0])
    else
      var r := FirstMatch(fs[1..], p);
      assert forall i :: 1 <= i < |fs| ==> fs[i] == fs[1..][i - 1];
      r
  }

  /** The format FirstMatch reports is preceded by none that matches. */
  lemma {:induction false} FirstMatchIsFirst(fs: seq<Format>, p: seq<Byte>, i: nat)
    requires i < |fs| && HasSignature(fs[i], p)
    requires forall j :: 0 <= j < i ==> !HasSignature(fs[j], p)
    ensures FirstMatch(fs, p) == Some(fs[i])
    decreases i
  {
    if i > 0 {
      assert !HasSignature(fs[0], p);
      assert forall j :: 0 <= j < i - 1 ==> fs[1..][j] == fs[j + 1];
      FirstMatchIsFirst(fs[1..], p, i - 1);
    }
  }

  /** Content classification as specified: nothing below three bytes, then the table. */
  function Classify(p: seq<Byte>): Option<Format>
  {
    if |p| < 3 then None else FirstMatch(Values, p)
  }

  // ---------------------------------------------------------------------------
  // Agreement of detectFromMagicBytes' tests with the table.

  lemma MatchesAt(p: seq<Byte>, pat: Pattern)
    ensures Matches(p, pat) <==>
              pat.offset + |pat.bytes| <= |p|
              && forall i :: 0 <= i < |pat.bytes| ==> p[pat.offset + i] == pat.bytes[i]
  {
    if pat.offset + |pat.bytes| <= |p| {
      var s := p[pat.offset..pat.offset + |pat.bytes|];
      assert forall i :: 0 <= i < |pat.bytes| ==> s[i] == p[pat.offset + i];
    }
  }

  lemma Matches4(p: seq<Byte>, off: nat, b: seq<Byte>)
    requires |b| == 4
    ensures Matches(p, Pattern(off, b)) <==>
              off + 4 <= |p| && p[off] == b[0] && p[off + 1] == b[1] && p[off + 2] == b[2] && p[off + 3] == b[3]
  {
    MatchesAt(p, Pattern(off, b));
  }

  lemma Matches3(p: seq<Byte>, b: seq<Byte>)
    requires |b| == 3
    ensures Matches(p, Pattern(0, b)) <==> 3 <= |p| && p[0] == b[0] && p[1] == b[1] && p[2] == b[2]
  {
    MatchesAt(p, Pattern(0, b));
  }

  lemma Matches2(p: seq<Byte>, b: seq<Byte>)
    requires |b| == 2
    ensures Matches(p, Pattern(0, b)) <==> 2 <= |p| && p[0] == b[0] && p[1] == b[1]
  {
    MatchesAt(p, Pattern(0, b));
  }

  /** Each format's table entry, spelled out byte by byte. */
  lemma SignatureBytes(p: seq<Byte>)
    requires 3 <= |p|
    ensures HasSignature(PNG, p) <==> |p| >= 4 && p[0] == 0x89 && p[1] == 0x50 && p[2] == 0x4E && p[3] == 0x47
    ensures HasSignature(JPEG, p) <==> p[0] == 0xFF && p[1] == 0xD8 && p[2] == 0xFF
    ensures HasSignature(GIF, p) <==> |p| >= 4 && p[0] == 0x47 && p[1] == 0x49 && p[2] == 0x46 && p[3] == 0x38
    ensures HasSignature(BMP, p) <==> p[0] == 0x42 && p[1] == 0x4D
    ensures HasSignature(TIFF, p) <==>
              (|p| >= 4 && p[0] == 0x49 && p[1] == 0x49 && p[2] == 0x2A && p[3] == 0x00)
              || (|p| >= 4 && p[0] == 0x4D && p[1] == 0x4D && p[2] == 0x00 && p[3] == 0x2A)
    ensures HasSignature(WEBP, p) <==> |p| >= 12 && p[0] == 0x52 && p[1] == 0x49 && p[2] == 0x46 && p[3] == 0x46
                                       && p[8] == 0x57 && p[9] == 0x45 && p[10] == 0x42 && p[11] == 0x50
    ensures HasSignature(AVIF, p) <==> |p| >= 12 && p[4] == 0x66 && p[5] == 0x74 && p[6] == 0x79 && p[7] == 0x70
                                       && (p[8..12] == Avif || p[8..12] == Avis || p[8..12] == Mif1)
  {
    Matches4(p, 0, PngMagic);
    Matches3(p, JpegMagic);
    Matches4(p, 0, GifMagic);
    Matches2(p, BmpMagic);
    Matches4(p, 0, TiffLE);
    Matches4(p, 0, TiffBE);
    Matches4(p, 0, Riff);
    Matches4(p, 8, Webp);
    Matches4(p, 4, Ftyp);
  }

  lemma FirstMatchValues(p: seq<Byte>)
    ensures FirstMatch(Values, p) ==
      if HasSignature(PNG, p) then Some(PNG)
      else if HasSignature(JPEG, p) then Some(JPEG)
      else if HasSignature(GIF, p) then Some(GIF)
      else if HasSignature(BMP, p) then Some(BMP)
      else if HasSignature(TIFF, p) then Some(TIFF)
      else if HasSignature(WEBP, p) then Some(WEBP)
      else if HasSignature(AVIF, p) then Some(AVIF)
      else None
  {
    assert FirstMatch([], p) == None;
    assert FirstMatch([AVIF], p) == if HasSignature(AVIF, p) then Some(AVIF) else FirstMatch([], p);
    assert [WEBP, AVIF][1..] == [AVIF];
    assert FirstMatch([WEBP, AVIF], p) == if HasSignature(WEBP, p) then Some(WEBP) else FirstMatch([AVIF], p);
    assert [TIFF, WEBP, AVIF][1..] == [WEBP, AVIF];
    assert FirstMatch([TIFF, WEBP, AVIF], p) == if HasSignature(TIFF, p) then Some(TIFF) else FirstMatch([WEBP, AVIF], p);
    assert [BMP, TIFF, WEBP, AVIF][1..] == [TIFF, WEBP, AVIF];
    assert FirstMatch([BMP, TIFF, WEBP, AVIF], p)
        == if HasSignature(BMP, p) then Some(BMP) else FirstMatch([TIFF, WEBP, AVIF], p);
    assert [GIF, BMP, TIFF, WEBP, AVIF][1..] == [BMP, TIFF, WEBP, AVIF];
    assert FirstMatch([GIF, BMP, TIFF, WEBP, AVIF], p)
        == if HasSignature(GIF, p) then Some(GIF) else FirstMatch([BMP, TIFF, WEBP, AVIF], p);
    assert [JPEG, GIF, BMP, TIFF, WEBP, AVIF][1..] == [GIF, BMP, TIFF, WEBP, AVIF];
    assert FirstMatch([JPEG, GIF, BMP, TIFF, WEBP, AVIF], p)
        == if HasSignature(JPEG, p) then Some(JPEG) else FirstMatch([GIF, BMP, TIFF, WEBP, AVIF], p);
    assert Values[1..] == [JPEG, GIF, BMP, TIFF, WEBP, AVIF];
  }

  /**
   * The tests of detectFromMagicBytes on the zero-padded buffer decide exactly what the table
   * decides on the bytes read: the padding never completes a signature, and the
   * order of the tests is the declaration order of the formats.
   */
  lemma MagicAgreesWithClassify(p: seq<Byte>)
    requires |p| <= HeaderSize
    ensures Magic(Pad(p), |p|) == Classify(p)
  {
    if |p| >= 3 {
      SignatureBytes(p);
      FirstMatchValues(p);
      if |p| == HeaderSize {
        assert Pad(p) == p;
      }
    }
  }

  // ---------------------------------------------------------------------------
  // Properties of the classification.

  /** The position of a format in the order signatures are tried. */
  function Rank(f: Format): (r: nat)
    ensures r < |Values| && Values[r] == f
  {
    match f
    case PNG => 0
    case JPEG => 1
    case GIF => 2
    case BMP => 3
    case TIFF => 4
    case WEBP => 5
    case AVIF => 6
  }

  /** The classifier reports f exactly when f's signature is present and no earlier one is. */
  lemma FirstSignatureWins(p: seq<Byte>, f: Format)
    requires |p| >= 3
    ensures Classify(p) == Some(f) <==>
              HasSignature(f, p) && forall g :: Rank(g) < Rank(f) ==> !HasSignature(g, p)
  {
    FirstMatchValues(p);
    assert forall g :: Rank(g) < Rank(f) <==> g in Values[..Rank(f)];
  }

  /** Fewer than three bytes is "unknown", never an error and never a format. */
  lemma ShortHeaderUnknown(h: seq<Byte>, n: nat)
    requires |h| == HeaderSize && n < 3
    ensures Magic(h, n) == None
  {
  }

  /** The fewest bytes detectFromMagicBytes' tests need before they can report f. */
  function MinBytes(f: Format): nat
  {
    match f
    case PNG => 4
    case JPEG => 3
    case GIF => 4
    case BMP => 3
    case TIFF => 4
    case WEBP => 12
    case AVIF => 12
  }

  lemma LengthGuards(h: seq<Byte>, n: nat, f: Format)
    requires |h| == HeaderSize && n <= HeaderSize
    requires Magic(h, n) == Some(f)
    ensures n >= MinBytes(f)
  {
  }

  /** JPEG and BMP are recognised from a three-byte header; the four-byte formats are not. */
  lemma ThreeByteHeaders(jpeg: seq<Byte>, bmp: seq<Byte>, png: seq<Byte>, gif: seq<Byte>)
    requires jpeg == [0xFF, 0xD8, 0xFF] && bmp == [0x42, 0x4D, 0x00]
    requires png == [0x89, 0x50, 0x4E] && gif == [0x47, 0x49, 0x46]
    ensures Classify(jpeg) == Some(JPEG)
    ensures Classify(bmp) == Some(BMP)
    ensures Classify(png) == None
    ensures Classify(gif) == None
  {
    SignatureBytes(jpeg);
    FirstMatchValues(jpeg);
    SignatureBytes(bmp);
    FirstMatchValues(bmp);
    SignatureBytes(png);
    FirstMatchValues(png);
    SignatureBytes(gif);
    FirstMatchValues(gif);
  }

  /**
   * AVIF is reported iff all twelve bytes were read, "ftyp" is at offset 4, the
   * brand is avif, avis or mif1, and no earlier signature claims the header.
   */
  lemma AvifExactly(p: seq<Byte>)
    requires |p| <= HeaderSize
    ensures Classify(p) == Some(AVIF) <==>
              |p| == HeaderSize && p[4..8] == Ftyp && (p[8..12] == Avif || p[8..12] == Avis || p[8..12] == Mif1)
              && forall g :: g != AVIF ==> !HasSignature(g, p)
  {
    if |p| >= 3 {
      FirstSignatureWins(p, AVIF);
      SignatureBytes(p);
      var h := Pad(p);
      if |p| == HeaderSize {
        assert h == p;
      }
    }
  }

  /**
   * Classification of headers taken from the detector's test suite. Each
   * header is a parameter fixed by the precondition, so the verifier reasons
   * from the byte-level table rather than by evaluating the literal.
   */
  lemma TiffHeaders(le: seq<Byte>, be: seq<Byte>)
    requires le == [0x49, 0x49, 0x2A, 0x00, 0, 0, 0, 0, 0, 0, 0, 0]
    requires be == [0x4D, 0x4D, 0x00, 0x2A, 0, 0, 0, 0, 0, 0, 0, 0]
    ensures Classify(le) == Some(TIFF)
    ensures Classify(be) == Some(TIFF)
  {
    SignatureBytes(le);
    FirstMatchValues(le);
    SignatureBytes(be);
    FirstMatchValues(be);
  }

  lemma AvifHeader(p: seq<Byte>)
    requires p == [0x00, 0x00, 0x00, 0x1C, 0x66, 0x74, 0x79, 0x70, 0x61, 0x76, 0x69, 0x66]
    ensures Classify(p) == Some(AVIF)
  {
    assert p[8..12] == Avif;
    SignatureBytes(p);
    FirstMatchValues(p);
  }

  lemma WebpHeader(p: seq<Byte>)
    requires p == [0x52, 0x49, 0x46, 0x46, 0x24, 0, 0, 0, 0x57, 0x45, 0x42, 0x50]
    ensures Classify(p) == Some(WEBP)
  {
    SignatureBytes(p);
    FirstMatchValues(p);
  }

  lemma UnknownHeaders(four: seq<Byte>, three: seq<Byte>, two: seq<Byte>)
    requires four == [0x01, 0x02, 0x03, 0x04] && three == [0x00, 0x00, 0x00] && two == [0x01, 0x02]
    ensures Classify(four) == None
    ensures Classify(three) == None
    ensures Classify(two) == None
  {
    SignatureBytes(four);
    FirstMatchValues(four);
    SignatureBytes(three);
    FirstMatchValues(three);
  }

  // ---------------------------------------------------------------------------
  // Reading the header.

  /**
   * detectFromMagicBytes: read until twelve bytes or the end of the stream,
   * then classify what was read. An IOException from the stream propagates.
   */
  method DetectFromMagicBytes(input: InputStream) returns (r: Result<Option<Format>, Error>)
    requires input.Valid()
    modifies input
    ensures input.Valid() && input.markPos == old(input.markPos)
    ensures input.broken ==> r == Failure(StreamFailed) && input.pos == old(input.pos)
    ensures !input.broken ==>
              var header := Header(old(input.Rest()));
              r == Success(Classify(header)) && input.pos == old(input.pos) + |header|
  {
    var header := new Byte[HeaderSize](_ => 0);
    var start := input.pos;
    var bytesRead := 0;
    while bytesRead < HeaderSize
      invariant 0 <= bytesRead <= HeaderSize
      invariant input.Valid() && input.markPos == old(input.markPos)
      invariant input.pos == start + bytesRead
      invariant forall i :: 0 <= i < bytesRead ==> header[i] == input.data[start + i]
      invariant forall i :: bytesRead <= i < HeaderSize ==> header[i] == 0
      invariant input.broken ==> bytesRead == 0
      decreases HeaderSize - bytesRead
    {
      var got := input.Read(header, bytesRead, HeaderSize - bytesRead);
      match got
      case IOFailure =>
        return Failure(StreamFailed);
      case EndOfStream =>
        break;
      case Count(k) =>
        bytesRead := bytesRead + k;
    }
    ghost var p := input.data[start..start + bytesRead];
    assert p == Header(input.data[start..]);
    assert header[..] == Pad(p);
    MagicAgreesWithClassify(p);
    return Success(Magic(header[..], bytesRead));
  }

  /**
   * detectFormat(InputStream): classify the next bytes of the stream. A stream
   * that supports marks is returned to where it was; any other one is wrapped in
   * a BufferedInputStream, which consumes it. A read failure gives "unknown".
   */
  method DetectFormatStream(input: InputStream) returns (r: Option<Format>)
    requires input.Valid()
    modifies input
    ensures input.Valid()
    ensures input.broken ==> r == None
    ensures !input.broken ==> r == Classify(Header(old(input.Rest())))
    ensures input.markSupported ==> input.pos == old(input.pos)
    ensures !input.markSupported ==> input.pos == |input.data|
  {
    var s := input;
    if !input.markSupported {
      s := Buffer(input);
    }
    s.Mark();
    var detected := DetectFromMagicBytes(s);
    if detected.Failure? {
      return None;
    }
    var ok := s.Reset();
    return detected.value;
  }

  // ---------------------------------------------------------------------------
  // File names.

  /**
   * getExtension: the lower-cased text after the last '.', which must exist;
   * nothing of the name before that dot matters.
   */
  function GetExtension(fileName: string): (r: Result<string, Error>)
    ensures r.Failure? <==> '.' !in fileName
    ensures r.Failure? ==> r.error == NoExtension(fileName)
    ensures r.Success? ==> |r.value| < |fileName|
    ensures r.Success? ==>
              var suffix := fileName[|fileName| - |r.value|..];
              fileName[|fileName| - |r.value| - 1] == '.' && '.' !in suffix && r.value == ToLower(suffix)
  {
    var dot := LastIndexOf(fileName, '.');
    LastDot(fileName);
    if dot < 0 then Failure(NoExtension(fileName)) else Success(ToLower(fileName[dot + 1..]))
  }

  /** The name has a dot exactly when lastIndexOf finds one, and none follows it. */
  lemma LastDot(fileName: string)
    ensures LastIndexOf(fileName, '.') < 0 <==> '.' !in fileName
    ensures LastIndexOf(fileName, '.') >= 0 ==> '.' !in fileName[LastIndexOf(fileName, '.') + 1..]
  {
    var dot := LastIndexOf(fileName, '.');
    if dot >= 0 {
      var suffix := fileName[dot + 1..];
      forall j | 0 <= j < |suffix|
        ensures suffix[j] != '.'
      {
        assert suffix[j] == fileName[dot + 1 + j];
      }
    }
  }

  /** The last dot of stem + "." + ext is the one before ext. */
  lemma LastDotOfJoin(stem: string, ext: string)
    requires '.' !in ext
    ensures LastIndexOf(stem + "." + ext, '.') == |stem|
  {
    var name := stem + "." + ext;
    var dot := LastIndexOf(name, '.');
    assert name[|stem|] == '.';
  }

  lemma GetExtensionOfJoin(stem: string, ext: string)
    requires '.' !in ext
    ensures GetExtension(stem + "." + ext) == Success(ToLower(ext))
  {
    var name := stem + "." + ext;
    LastDotOfJoin(stem, ext);
    assert name[|stem| + 1..] == ext;
  }

  lemma GetExtensionDotOnly()
    ensures GetExtension(".") == Success("")
  {
    GetExtensionOfJoin("", "");
    assert "" + "." + "" == ".";
  }

  lemma GetExtensionMultipleDots()
    ensures GetExtension("image.backup.png") == Success("png")
  {
    GetExtensionOfJoin("image.backup", "png");
    assert "image.backup" + "." + "png" == "image.backup.png";
    LowerCaseIsFixed("png");
  }

  lemma GetExtensionHiddenFile()
    ensures GetExtension(".gitignore") == Success("gitignore")
  {
    var name := ".gitignore";
    assert name[0] == '.';
    assert '.' !in name[1..];
    assert LastIndexOf(name, '.') == 0;
    assert name[1..] == "gitignore";
    assert ToLower("gitignore") == "gitignore";
  }

  lemma GetExtensionLowerCases()
    ensures GetExtension("photo.PNG") == Success("png")
  {
    GetExtensionOfJoin("photo", "PNG");
    assert "photo" + "." + "PNG" == "photo.PNG";
    assert ToLower("PNG") == "png";
  }

  lemma GetExtensionNeedsDot()
    ensures GetExtension("") == Failure(NoExtension(""))
    ensures GetExtension("noext") == Failure(NoExtension("noext"))
  {
    assert '.' !in "noext";
  }

  /** getFormat: the format named by the file's extension. */
  function GetFormat(fileName: string): (r: Result<Format, Error>)
    ensures '.' !in fileName ==> r == Failure(NoExtension(fileName))
    ensures r.Success? ==> GetExtension(fileName).Success?
                           && FromExtension(Some(GetExtension(fileName).value)) == r
  {
    var ext :- GetExtension(fileName);
    FromExtension(Some(ext))
  }

  /** A canonical extension after the last dot names its format, whatever precedes it. */
  lemma GetFormatOfCanonicalName(stem: string, f: Format)
    ensures GetFormat(stem + "." + Extension(f)) == Success(f)
  {
    var ext := Extension(f);
    assert '.' !in ext by {
      match f
      case PNG =>
      case JPEG =>
      case GIF =>
      case BMP =>
      case TIFF =>
      case WEBP =>
      case AVIF =>
    }
    GetExtensionOfJoin(stem, ext);
    CanonicalExtensions();
    LowerCaseIsFixed(ext);
    ExtensionRoundTrip(f);
    assert GetExtension(stem + "." + ext) == Success(ext);
  }

  /** Upper-case and alias spellings after the last dot still name the format. */
  lemma GetFormatUpperCaseAlias(stem: string)
    ensures GetFormat(stem + ".JPG") == Success(JPEG)
  {
    GetExtensionOfJoin(stem, "JPG");
    assert stem + "." + "JPG" == stem + ".JPG";
    JpegSpellings();
  }

  /** An extension no format is registered under is an error, not a default. */
  lemma GetFormatUnknownExtension(stem: string)
    ensures GetFormat(stem + ".xyz") == Failure(UnsupportedFormat("xyz"))
  {
    GetExtensionOfJoin(stem, "xyz");
    assert stem + "." + "xyz" == stem + ".xyz";
    XyzIsUnknown();
    assert GetExtension(stem + ".xyz") == Success("xyz");
  }

  lemma XyzIsUnknown()
    ensures ToLower("xyz") == "xyz"
    ensures FromExtension(Some("xyz")) == Failure(UnsupportedFormat("xyz"))
  {
    assert ToLower("xyz") == "xyz";
    UnknownExtensionIsError("xyz");
  }

  // ---------------------------------------------------------------------------
  // detectFormat(Path).

  /**
   * The format detectFormat(path) reports for a file whose content is `content`
   * (None when the file cannot be opened or read): the content signature when
   * there is one, else the extension's format, else unknown.
   */
  function DetectedFormat(content: Option<seq<Byte>>, path: Path): Option<Format>
  {
    var sniffed := if content.Some? then Classify(Header(content.value)) else None;
    if sniffed.Some? then sniffed else GetFormat(FileName(path)).ToOption()
  }

  lemma DetectedFormatCases(content: Option<seq<Byte>>, path: Path)
    ensures content.Some? && Classify(Header(content.value)).Some? ==>
              DetectedFormat(content, path) == Classify(Header(content.value))
    ensures content.None? || Classify(Header(content.value)).None? ==>
              DetectedFormat(content, path) == GetFormat(FileName(path)).ToOption()
    ensures DetectedFormat(content, path).None? <==>
              (content.None? || Classify(Header(content.value)).None?) && GetFormat(FileName(path)).Failure?
  {
  }

  /** The content wins over a contradicting extension. */
  lemma ContentBeatsExtension(dir: Path)
    ensures DetectedFormat(Some([0x89, 0x50, 0x4E, 0x47, 0x0D, 0x0A, 0x1A, 0x0A]), Resolve(dir, "picture.gif")) == Some(PNG)
  {
    var c: seq<Byte> := [0x89, 0x50, 0x4E, 0x47, 0x0D, 0x0A, 0x1A, 0x0A];
    assert Header(c) == c;
    SignatureBytes(c);
    FirstMatchValues(c);
  }

  lemma NoSlashInCanonicalName(stem: string, f: Format)
    requires '/' !in stem
    ensures '/' !in stem + "." + Extension(f)
  {
    var name := stem + "." + Extension(f);
    assert '/' !in Extension(f) by {
      match f
      case PNG =>
      case JPEG =>
      case GIF =>
      case BMP =>
      case TIFF =>
      case WEBP =>
      case AVIF =>
    }
    assert forall i :: 0 <= i < |name| ==> name[i] in stem || name[i] == '.' || name[i] in Extension(f);
  }

  /** Unrecognised content, such as three zero bytes, falls back to the extension. */
  lemma DetectFallsBackToExtension(content: seq<Byte>, dir: Path, stem: string, f: Format)
    requires Classify(Header(content)) == None
    requires '/' !in stem
    ensures DetectedFormat(Some(content), Resolve(dir, stem + "." + Extension(f))) == Some(f)
  {
    NoSlashInCanonicalName(stem, f);
    FileNameOfResolve(dir, stem + "." + Extension(f));
    GetFormatOfCanonicalName(stem, f);
  }

  /** A file that cannot be read is classified by its name alone. */
  lemma DetectUnreadableFile(dir: Path, stem: string, f: Format)
    requires '/' !in stem
    ensures DetectedFormat(None, Resolve(dir, stem + "." + Extension(f))) == Some(f)
  {
    NoSlashInCanonicalName(stem, f);
    FileNameOfResolve(dir, stem + "." + Extension(f));
    GetFormatOfCanonicalName(stem, f);
  }

  /** No signature and no dot in the name, such as four bytes 01 02 03 04 in "noext": unknown. */
  lemma DetectNothing(content: seq<Byte>, dir: Path, name: string)
    requires Classify(Header(content)) == None
    requires '/' !in name && '.' !in name
    ensures DetectedFormat(Some(content), Resolve(dir, name)) == None
  {
    FileNameOfResolve(dir, name);
  }

  /** detectFormat(Path): sniff the content, then fall back to the file name. */
  method DetectFormatPath(content: Option<seq<Byte>>, path: Path) returns (r: Option<Format>)
    ensures r == DetectedFormat(content, path)
  {
    if content.Some? {
      var input := new InputStream(content.value, false, 8192, false);
      var detected := DetectFromMagicBytes(input);
      if detected.Success? && detected.value.Some? {
        return detected.value;
      }
    }
    return GetFormat(FileName(path)).ToOption();
  }
}
