/**
 * OutputOptions: how a processed image is written (compression quality,
 * metadata stripping, explicit output format) and its mutable builder.
 */
module OutputOptions {
  import opened Wrappers
  import opened Errors
  import opened ImageFormat

  /** A Java float argument: a finite value or one of the IEEE special values. */
  datatype JFloat = NaN | PositiveInfinity | NegativeInfinity | Finite(value: real)

  /** The record: no quality (null) means the encoder default. */
  datatype Options = Options(quality: Option<real>, stripMetadata: bool, outputFormat: Option<Format>)

  /** A quality the setters store: a number in [0, 1]. */
  predicate InRange(q: real)
  {
    0.0 <= q <= 1.0
  }

  /** Options whose quality, if any, passed the setter's check. */
  predicate WellFormed(o: Options)
  {
    o.quality.Some? ==> InRange(o.quality.value)
  }

  /** defaults(): no quality override, metadata kept, format inferred. */
  function Defaults(): (o: Options)
    ensures o.quality.None? && !o.stripMetadata && o.outputFormat.None?
    ensures WellFormed(o)
  {
    Options(None, false, None)
  }

  /**
   * The check both quality setters make: NaN first, then the two comparisons,
   * which also reject the infinities.
   */
  function CheckQuality(q: JFloat): (r: Result<real, Error>)
    ensures r.Success? <==> q.Finite? && InRange(q.value)
    ensures r.Success? ==> r.value == q.value
    ensures r.Failure? ==> r.error == InvalidQuality
  {
    match q
    case NaN => Failure(InvalidQuality)
    case NegativeInfinity => Failure(InvalidQuality)
    case PositiveInfinity => Failure(InvalidQuality)
    case Finite(v) => if v < 0.0 || v > 1.0 then Failure(InvalidQuality) else Success(v)
  }

  lemma QualityBoundaries()
    ensures CheckQuality(Finite(0.0)) == Success(0.0)
    ensures CheckQuality(Finite(1.0)) == Success(1.0)
    ensures CheckQuality(Finite(-0.1)).Failure? && CheckQuality(Finite(1.1)).Failure?
    ensures CheckQuality(NaN).Failure? && CheckQuality(PositiveInfinity).Failure?
  {
  }

  class Builder {
    var quality: Option<real>
    var stripMetadata: bool
    var outputFormat: Option<Format>

    ghost predicate Valid()
      reads this
    {
      quality.Some? ==> InRange(quality.value)
    }

    constructor ()
      ensures Valid()
      ensures quality.None? && !stripMetadata && outputFormat.None?
    {
      quality := None;
      stripMetadata := false;
      outputFormat := None;
    }

    /** quality(q): store q, or throw and leave the builder as it was. */
    method Quality(q: JFloat) returns (r: Outcome<Error>)
      requires Valid()
      modifies this
      ensures Valid()
      ensures r.Pass? <==> CheckQuality(q).Success?
      ensures r.Pass? ==> quality == Some(q.value)
      ensures r.Fail? ==> r.error == InvalidQuality && quality == old(quality)
      ensures stripMetadata == old(stripMetadata) && outputFormat == old(outputFormat)
    {
      var checked := CheckQuality(q);
      if checked.Failure? {
        return Fail(checked.error);
      }
      quality := Some(checked.value);
      return Pass;
    }

    /** stripMetadata(strip). */
    method StripMetadata(strip: bool)
      requires Valid()
      modifies this
      ensures Valid()
      ensures stripMetadata == strip && quality == old(quality) && outputFormat == old(outputFormat)
    {
      stripMetadata := strip;
    }

    /** outputFormat(format); null clears it. */
    method OutputFormat(format: Option<Format>)
      requires Valid()
      modifies this
      ensures Valid()
      ensures outputFormat == format && quality == old(quality) && stripMetadata == old(stripMetadata)
    {
      outputFormat := format;
    }

    /** build(): the current settings; the builder itself is left alone. */
    method Build() returns (o: Options)
      requires Valid()
      ensures o == Options(quality, stripMetadata, outputFormat)
      ensures WellFormed(o)
    {
      o := Options(quality, stripMetadata, outputFormat);
    }
  }

  /** build() does not touch the builder, so two builds in a row give equal options. */
  method BuildTwice(b: Builder) returns (first: Options, second: Options)
    requires b.Valid()
    ensures first == second
    ensures first == Options(b.quality, b.stripMetadata, b.outputFormat)
  {
    first := b.Build();
    second := b.Build();
  }
}
