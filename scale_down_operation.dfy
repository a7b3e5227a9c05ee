/**
 * ScaleDownOperation: like Fit, but an image that already fits the box is
 * returned as it is (CSS object-fit: scale-down), so it never enlarges.
 */
module ScaleDownOperation {
  import opened Wrappers
  import opened Errors
  import opened Images
  import opened ScaleMath
  import ImageScaler
  import FitOperation

  datatype ScaleDown = ScaleDown(maxWidth: int, maxHeight: int)

  type ValidScaleDown = op: ScaleDown | op.maxWidth > 0 && op.maxHeight > 0 witness ScaleDown(1, 1)

  /** The compact constructor: both bounds must be positive. */
  function New(maxWidth: int, maxHeight: int): (r: Result<ValidScaleDown, Error>)
    ensures r.Success? <==> maxWidth > 0 && maxHeight > 0
    ensures r.Success? ==> r.value == ScaleDown(maxWidth, maxHeight)
    ensures r.Failure? ==> r.error == InvalidDimensions("ScaleDown", maxWidth, maxHeight)
  {
    var sizeCheck := ImageScaler.RequirePositiveDimensions(maxWidth, maxHeight, "ScaleDown");
    if sizeCheck.Fail? then Failure(sizeCheck.error) else Success(ScaleDown(maxWidth, maxHeight))
  }

  predicate FitsIn(op: ScaleDown, image: BufferedImage)
  {
    image.width <= op.maxWidth && image.height <= op.maxHeight
  }

  /**
   * apply: the image itself when it fits; otherwise ImageScaler.scale to Fit's
   * rounded size, which keeps alpha for a TYPE_CUSTOM source.
   */
  function Apply(op: ValidScaleDown, image: BufferedImage): (r: Result<BufferedImage, Error>)
    ensures FitsIn(op, image) ==> r == Success(image)
    ensures !FitsIn(op, image) ==>
              var w := FitOperation.FitWidth(op.maxWidth, op.maxHeight, image.width, image.height);
              var h := FitOperation.FitHeight(op.maxWidth, op.maxHeight, image.width, image.height);
              && (r.Success? <==> w > 0 && h > 0)
              && (r.Success? ==> r.value == Image(w, h, ImageScaler.SafeType(image),
                                                  TypeHasAlpha(ImageScaler.SafeType(image))))
  {
    if image.width <= op.maxWidth && image.height <= op.maxHeight then Success(image)
    else
      ImageScaler.Scale(image,
                        FitOperation.FitWidth(op.maxWidth, op.maxHeight, image.width, image.height),
                        FitOperation.FitHeight(op.maxWidth, op.maxHeight, image.width, image.height))
  }

  /** The result is never larger than the input, nor than the box. */
  lemma NeverEnlarges(op: ValidScaleDown, image: BufferedImage)
    ensures Apply(op, image).Success? ==>
              var out := Apply(op, image).value;
              && out.width <= image.width && out.height <= image.height
              && (!FitsIn(op, image) ==> out.width <= op.maxWidth && out.height <= op.maxHeight)
  {
    if !FitsIn(op, image) {
      var s := FitOperation.FitScale(op.maxWidth, op.maxHeight, image.width, image.height);
      if image.width > op.maxWidth {
        FactorBelowOne(s, op.maxWidth, image.width);
      } else {
        FactorBelowOne(s, op.maxHeight, image.height);
      }
      ScaledNotLarger(image.width, s);
      ScaledNotLarger(image.height, s);
      FitOperation.FitSizeWithinBounds(op.maxWidth, op.maxHeight, image.width, image.height);
    }
  }

  /** Every successful result fits the box. */
  lemma ResultFitsBox(op: ValidScaleDown, image: BufferedImage)
    requires Apply(op, image).Success?
    ensures FitsIn(op, Apply(op, image).value)
  {
    if !FitsIn(op, image) {
      FitOperation.FitSizeWithinBounds(op.maxWidth, op.maxHeight, image.width, image.height);
    }
  }

  /** Applying it again to its own result changes nothing. */
  lemma Idempotent(op: ValidScaleDown, image: BufferedImage)
    requires Apply(op, image).Success?
    ensures Apply(op, Apply(op, image).value) == Apply(op, image)
  {
    ResultFitsBox(op, image);
  }

  /** 400x200 into 200x200 gives 200x100. */
  lemma LandscapeExample()
    ensures Apply(ScaleDown(200, 200), Image(400, 200, TypeIntRgb, false)) == Success(Image(200, 100, TypeIntRgb, false))
  {
    assert FitOperation.FitScale(200, 200, 400, 200) == Ratio(200, 400);
  }

  /** One side over the bound is enough: 400x100 gives 200x50, and 100x400 gives 50x200. */
  lemma OneSideExceedsExamples()
    ensures Apply(ScaleDown(200, 200), Image(400, 100, TypeIntRgb, false)) == Success(Image(200, 50, TypeIntRgb, false))
    ensures Apply(ScaleDown(200, 200), Image(100, 400, TypeIntRgb, false)) == Success(Image(50, 200, TypeIntRgb, false))
  {
    assert FitOperation.FitScale(200, 200, 400, 100) == Ratio(200, 400);
    assert FitOperation.FitScale(200, 200, 100, 400) == Ratio(200, 400);
  }
}
