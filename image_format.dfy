/**
 * ImageFormat: the closed set of supported formats, each with one canonical
 * lower-case extension and optional aliases, and the case-insensitive lookup.
 */
module ImageFormat {
  import opened Wrappers
  import opened Errors
  import opened Strings

  datatype Format = PNG | JPEG | GIF | BMP | TIFF | WEBP | AVIF

  /** ImageFormat.values(): the constants in declaration order. */
  const Values: seq<Format> := [PNG, JPEG, GIF, BMP, TIFF, WEBP, AVIF]

  /** getExtension(): the canonical extension, without the dot. */
  function Extension(f: Format): string
  {
    match f
    case PNG => "png"
    case JPEG => "jpeg"
    case GIF => "gif"
    case BMP => "bmp"
    case TIFF => "tiff"
    case WEBP => "webp"
    case AVIF => "avif"
  }

  /** The alias list each constant is declared with. */
  function Aliases(f: Format): seq<string>
  {
    if f == JPEG then ["jpg"] else []
  }

  /** The names under which f is registered: its extension and its aliases. */
  predicate HasName(f: Format, name: string)
  {
    name == Extension(f) || name in Aliases(f)
  }

  /** isStandard(): handled by the built-in codec, without external tools. */
  predicate IsStandard(f: Format)
  {
    f == PNG || f == JPEG || f == GIF || f == BMP || f == TIFF
  }

  /** LOOKUP, as the static initializer leaves it. */
  const Lookup: map<string, Format> :=
    map["png" := PNG, "jpeg" := JPEG, "jpg" := JPEG, "gif" := GIF,
        "bmp" := BMP, "tiff" := TIFF, "webp" := WEBP, "avif" := AVIF]

  /** The map after putting every name in `names` to f, in order. */
  function PutAll(m: map<string, Format>, names: seq<string>, f: Format): map<string, Format>
    decreases |names|
  {
    if names == [] then m else PutAll(m[names[0] := f], names[1..], f)
  }

  /** The map after the static initializer has registered the formats fs, in order. */
  function Registered(fs: seq<Format>): map<string, Format>
  {
    if fs == [] then map[]
    else
      var last := fs[|fs| - 1];
      PutAll(Registered(fs[..|fs| - 1])[Extension(last) := last], Aliases(last), last)
  }

  lemma {:induction false} PutAllStep(m: map<string, Format>, names: seq<string>, j: nat, f: Format)
    requires j < |names|
    ensures PutAll(m, names[..j + 1], f) == PutAll(m, names[..j], f)[names[j] := f]
    decreases j
  {
    var m' := m[names[0] := f];
    if j == 0 {
      assert names[..1][1..] == [];
      assert PutAll(m, names[..1], f) == PutAll(m', [], f);
    } else {
      assert names[..j + 1][1..] == names[1..][..j];
      assert names[..j][1..] == names[1..][..j - 1];
      assert PutAll(m, names[..j + 1], f) == PutAll(m', names[1..][..j], f);
      assert PutAll(m, names[..j], f) == PutAll(m', names[1..][..j - 1], f);
      PutAllStep(m', names[1..], j - 1, f);
    }
  }

  lemma RegisteredValues()
    ensures Registered(Values) == Lookup
  {
    var m1 := map["png" := PNG];
    var m2 := m1["jpeg" := JPEG]["jpg" := JPEG];
    var m3 := m2["gif" := GIF];
    var m4 := m3["bmp" := BMP];
    var m5 := m4["tiff" := TIFF];
    var m6 := m5["webp" := WEBP];
    var m7 := m6["avif" := AVIF];
    assert Values[..1][..0] == [];
    assert Registered(Values[..1]) == m1;
    assert Values[..2][..1] == Values[..1];
    assert PutAll(m1["jpeg" := JPEG], ["jpg"], JPEG) == m2;
    assert Registered(Values[..2]) == m2;
    assert Values[..3][..2] == Values[..2];
    assert Registered(Values[..3]) == m3;
    assert Values[..4][..3] == Values[..3];
    assert Registered(Values[..4]) == m4;
    assert Values[..5][..4] == Values[..4];
    assert Registered(Values[..5]) == m5;
    assert Values[..6][..5] == Values[..5];
    assert Registered(Values[..6]) == m6;
    assert Values[..7][..6] == Values[..6];
    assert Registered(Values[..7]) == m7;
    assert Values[..7] == Values;
    assert m7 == Lookup;
  }

  /** The static initializer: every extension and alias of every constant, in order. */
  method InitializeLookup() returns (lookup: map<string, Format>)
    ensures lookup == Lookup
  {
    lookup := map[];
    var i := 0;
    while i < |Values|
      invariant 0 <= i <= |Values|
      invariant lookup == Registered(Values[..i])
    {
      var format := Values[i];
      var base := lookup[Extension(format) := format];
      lookup := base;
      var aliases := Aliases(format);
      var j := 0;
      while j < |aliases|
        invariant 0 <= j <= |aliases|
        invariant lookup == PutAll(base, aliases[..j], format)
      {
        PutAllStep(base, aliases, j, format);
        lookup := lookup[aliases[j] := format];
        j := j + 1;
      }
      assert aliases[..j] == aliases;
      assert Values[..i + 1][..i] == Values[..i];
      i := i + 1;
    }
    assert Values[..i] == Values;
    RegisteredValues();
  }

  /**
   * fromExtension(ext): the format registered under ext lower-cased; null and
   * unknown names are errors, never a default.
   */
  function FromExtension(ext: Option<string>): (r: Result<Format, Error>)
    ensures ext.None? ==> r == Failure(NullExtension)
    ensures ext.Some? ==> forall f :: r == Success(f) <==> HasName(f, ToLower(ext.value))
    ensures ext.Some? && r.Failure? ==> r.error == UnsupportedFormat(ext.value)
  {
    match ext
    case None => Failure(NullExtension)
    case Some(e) =>
      var key := ToLower(e);
      if key in Lookup then Success(Lookup[key]) else Failure(UnsupportedFormat(e))
  }

  lemma ExtensionRoundTrip(f: Format)
    ensures FromExtension(Some(Extension(f))) == Success(f)
  {
    LowerCaseIsFixed(Extension(f));
  }

  lemma CanonicalExtensions()
    ensures forall f :: IsLowerCase(Extension(f)) && |Extension(f)| > 0
    ensures forall f, g :: Extension(f) == Extension(g) ==> f == g
  {
  }

  lemma OnlyAliasIsJpg(f: Format, name: string)
    ensures name in Aliases(f) <==> f == JPEG && name == "jpg"
  {
  }

  lemma FromExtensionIgnoresCase(s: string)
    ensures FromExtension(Some(s)).ToOption() == FromExtension(Some(ToLower(s))).ToOption()
  {
    ToLowerIsLowerCase(s);
  }

  lemma JpegSpellings()
    ensures FromExtension(Some("jpg")) == Success(JPEG)
    ensures FromExtension(Some("JPG")) == Success(JPEG)
    ensures FromExtension(Some("Jpeg")) == Success(JPEG)
  {
    assert ToLower("JPG") == "jpg";
    assert ToLower("Jpeg") == "jpeg";
  }

  lemma UnknownExtensionIsError(s: string)
    requires forall f :: !HasName(f, ToLower(s))
    ensures FromExtension(Some(s)) == Failure(UnsupportedFormat(s))
  {
  }

  lemma EmptyExtensionIsError()
    ensures FromExtension(Some("")) == Failure(UnsupportedFormat(""))
  {
    UnknownExtensionIsError("");
  }

  lemma StandardFormats(f: Format)
    ensures IsStandard(f) <==> f in {PNG, JPEG, GIF, BMP, TIFF}
    ensures !IsStandard(f) <==> f == WEBP || f == AVIF
  {
  }
}
