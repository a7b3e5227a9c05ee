/**
 * FitOperation: scale an image, keeping its aspect ratio, to the largest size
 * that fits the bounding box (CSS object-fit: contain). It may enlarge.
 */
module FitOperation {
  import opened Wrappers
  import opened Errors
  import opened Images
  import opened ScaleMath

  datatype Fit = Fit(maxWidth: int, maxHeight: int)

  type ValidFit = op: Fit | op.maxWidth > 0 && op.maxHeight > 0 witness Fit(1, 1)

  /** The constructor: both bounds must be positive. */
  function New(maxWidth: int, maxHeight: int): (r: Result<ValidFit, Error>)
    ensures r.Success? <==> maxWidth > 0 && maxHeight > 0
    ensures r.Success? ==> r.value == Fit(maxWidth, maxHeight)
    ensures r.Failure? ==> r.error == InvalidDimensions("Fit", maxWidth, maxHeight)
  {
    if maxWidth <= 0 || maxHeight <= 0 then Failure(InvalidDimensions("Fit", maxWidth, maxHeight))
    else Success(Fit(maxWidth, maxHeight))
  }

  /** The smaller of the two axis factors bound / source (the horizontal one on a tie). */
  function FitScale(maxWidth: nat, maxHeight: nat, width: nat, height: nat): Scale
    requires width > 0 && height > 0
  {
    Min(Ratio(maxWidth, width), Ratio(maxHeight, height))
  }

  /** The rounded size of a width x height image scaled into maxWidth x maxHeight. */
  function FitWidth(maxWidth: nat, maxHeight: nat, width: nat, height: nat): nat
    requires width > 0 && height > 0
  {
    Scaled(width, FitScale(maxWidth, maxHeight, width, height))
  }

  function FitHeight(maxWidth: nat, maxHeight: nat, width: nat, height: nat): nat
    requires width > 0 && height > 0
  {
    Scaled(height, FitScale(maxWidth, maxHeight, width, height))
  }

  /**
   * The rounded size fits the box, and the axis whose factor is the smaller one
   * meets its bound exactly.
   */
  lemma FitSizeWithinBounds(maxWidth: nat, maxHeight: nat, width: nat, height: nat)
    requires width > 0 && height > 0
    ensures FitWidth(maxWidth, maxHeight, width, height) <= maxWidth
    ensures FitHeight(maxWidth, maxHeight, width, height) <= maxHeight
    ensures AtMost(Ratio(maxWidth, width), Ratio(maxHeight, height)) ==>
              FitWidth(maxWidth, maxHeight, width, height) == maxWidth
    ensures !AtMost(Ratio(maxWidth, width), Ratio(maxHeight, height)) ==>
              FitHeight(maxWidth, maxHeight, width, height) == maxHeight
  {
    var s := FitScale(maxWidth, maxHeight, width, height);
    ScaledAtMost(width, maxWidth, s);
    ScaledAtMost(height, maxHeight, s);
    if s == Ratio(maxWidth, width) {
      ScaledToBound(width, maxWidth);
    }
    if s == Ratio(maxHeight, height) {
      ScaledToBound(height, maxHeight);
    }
  }

  /**
   * apply: a new image of the rounded size with the source's type code. The
   * BufferedImage constructor rejects TYPE_CUSTOM and a side rounded to 0.
   */
  function Apply(op: ValidFit, image: BufferedImage): (r: Result<BufferedImage, Error>)
    ensures var w := FitWidth(op.maxWidth, op.maxHeight, image.width, image.height);
            var h := FitHeight(op.maxWidth, op.maxHeight, image.width, image.height);
            && (r.Success? <==> image.imageType != TypeCustom && w > 0 && h > 0)
            && (r.Success? ==> r.value == Image(w, h, image.imageType, TypeHasAlpha(image.imageType)))
            && (r.Failure? ==> r.error == IllegalImageArguments(w, h, image.imageType))
  {
    NewImage(FitWidth(op.maxWidth, op.maxHeight, image.width, image.height),
             FitHeight(op.maxWidth, op.maxHeight, image.width, image.height),
             image.imageType)
  }

  /** Whatever succeeds fits the box. */
  lemma ApplyFitsBox(op: ValidFit, image: BufferedImage)
    requires Apply(op, image).Success?
    ensures Apply(op, image).value.width <= op.maxWidth
    ensures Apply(op, image).value.height <= op.maxHeight
    ensures Apply(op, image).value.imageType == image.imageType
  {
    FitSizeWithinBounds(op.maxWidth, op.maxHeight, image.width, image.height);
  }

  /** A landscape image into a square box: 400x200 into 200x200 gives 200x100. */
  lemma LandscapeExample()
    ensures Apply(Fit(200, 200), Image(400, 200, TypeIntRgb, false)) == Success(Image(200, 100, TypeIntRgb, false))
  {
    assert FitScale(200, 200, 400, 200) == Ratio(200, 400);
  }

  /** Rounding to nearest: 300x200 into 100x100 gives 100x67. */
  lemma RoundingExample()
    ensures FitWidth(100, 100, 300, 200) == 100 && FitHeight(100, 100, 300, 200) == 67
  {
    assert FitScale(100, 100, 300, 200) == Ratio(100, 300);
  }

  /** A tall, thin image: 10x1000 into 100x100 gives 1x100. */
  lemma ThinExample()
    ensures FitWidth(100, 100, 10, 1000) == 1 && FitHeight(100, 100, 10, 1000) == 100
  {
    assert FitScale(100, 100, 10, 1000) == Ratio(100, 1000);
  }

  /** Fit enlarges: 50x100 into 200x400 gives 200x400. */
  lemma EnlargeExample()
    ensures Apply(Fit(200, 400), Image(50, 100, TypeIntRgb, false)) == Success(Image(200, 400, TypeIntRgb, false))
  {
    assert FitScale(200, 400, 50, 100) == Ratio(200, 50);
  }

  /**
   * A side can round down to nothing: 1x10000 into 100x100 scales the width to
   * 0.01 pixel, which Math.round makes 0, and the constructor throws.
   */
  lemma CollapsedSideFails()
    ensures FitWidth(100, 100, 1, 10000) == 0
    ensures Apply(Fit(100, 100), Image(1, 10000, TypeIntRgb, false)).Failure?
  {
    assert FitScale(100, 100, 1, 10000) == Ratio(100, 10000);
  }
}
