/**
 * CoverOperation: scale an image so that it covers the target box (CSS
 * object-fit: cover) and cut the centred target-sized window out of it.
 */
module CoverOperation {
  import opened Wrappers
  import opened Errors
  import opened Images
  import opened ScaleMath

  datatype Cover = Cover(targetWidth: int, targetHeight: int)

  type ValidCover = op: Cover | op.targetWidth > 0 && op.targetHeight > 0 witness Cover(1, 1)

  /** The constructor: both target dimensions must be positive. */
  function New(targetWidth: int, targetHeight: int): (r: Result<ValidCover, Error>)
    ensures r.Success? <==> targetWidth > 0 && targetHeight > 0
    ensures r.Success? ==> r.value == Cover(targetWidth, targetHeight)
    ensures r.Failure? ==> r.error == InvalidDimensions("Cover", targetWidth, targetHeight)
  {
    if targetWidth <= 0 || targetHeight <= 0 then Failure(InvalidDimensions("Cover", targetWidth, targetHeight))
    else Success(Cover(targetWidth, targetHeight))
  }

  /** Java's int division, which truncates toward zero. */
  function JavaDiv(a: int, b: int): (q: int)
    requires b > 0
    ensures a >= 0 ==> q == a / b
    ensures a < 0 ==> q == -((-a) / b)
  {
    if a >= 0 then a / b else -((-a) / b)
  }

  /** The larger of the two axis factors target / source. */
  function CoverScale(op: ValidCover, image: BufferedImage): Scale
  {
    Max(Ratio(op.targetWidth, image.width), Ratio(op.targetHeight, image.height))
  }

  function ScaledWidth(op: ValidCover, image: BufferedImage): nat
  {
    Scaled(image.width, CoverScale(op, image))
  }

  function ScaledHeight(op: ValidCover, image: BufferedImage): nat
  {
    Scaled(image.height, CoverScale(op, image))
  }

  /** The left edge of the centred window: half the horizontal excess. */
  function CropX(op: ValidCover, image: BufferedImage): int
  {
    JavaDiv(ScaledWidth(op, image) - op.targetWidth, 2)
  }

  /** The top edge of the centred window: half the vertical excess. */
  function CropY(op: ValidCover, image: BufferedImage): int
  {
    JavaDiv(ScaledHeight(op, image) - op.targetHeight, 2)
  }

  /**
   * Both scaled dimensions reach their target, and at least one of them equals
   * it: the larger factor makes its own axis exact.
   */
  lemma ScaledCoversTarget(op: ValidCover, image: BufferedImage)
    ensures ScaledWidth(op, image) >= op.targetWidth
    ensures ScaledHeight(op, image) >= op.targetHeight
    ensures ScaledWidth(op, image) == op.targetWidth || ScaledHeight(op, image) == op.targetHeight
  {
    var s := CoverScale(op, image);
    ScaledAtLeast(image.width, op.targetWidth, s);
    ScaledAtLeast(image.height, op.targetHeight, s);
    if s == Ratio(op.targetWidth, image.width) {
      ScaledToBound(image.width, op.targetWidth);
    } else {
      ScaledToBound(image.height, op.targetHeight);
    }
  }

  /** The centred window lies inside the scaled image on both axes. */
  lemma WindowInsideScaled(op: ValidCover, image: BufferedImage)
    ensures 0 <= CropX(op, image) && CropX(op, image) + op.targetWidth <= ScaledWidth(op, image)
    ensures 0 <= CropY(op, image) && CropY(op, image) + op.targetHeight <= ScaledHeight(op, image)
    ensures CropX(op, image) == (ScaledWidth(op, image) - op.targetWidth) / 2
    ensures CropY(op, image) == (ScaledHeight(op, image) - op.targetHeight) / 2
  {
    ScaledCoversTarget(op, image);
  }

  /**
   * apply: scale to the covering size with the source's type code, then take
   * the centred window of the target size.
   */
  function Apply(op: ValidCover, image: BufferedImage): (r: Result<BufferedImage, Error>)
    ensures r.Success? <==> image.imageType != TypeCustom
    ensures r.Success? ==> r.value == Image(op.targetWidth, op.targetHeight, image.imageType, TypeHasAlpha(image.imageType))
    ensures r.Failure? ==>
              r.error == IllegalImageArguments(ScaledWidth(op, image), ScaledHeight(op, image), TypeCustom)
  {
    WindowInsideScaled(op, image);
    var scaled :- NewImage(ScaledWidth(op, image), ScaledHeight(op, image), image.imageType);
    Subimage(scaled, CropX(op, image), CropY(op, image), op.targetWidth, op.targetHeight)
  }

  /** 300x200 covering 100x100: factor 1/2, scaled to 150x100, window at (25, 0). */
  lemma LandscapeExample()
    ensures ScaledWidth(Cover(100, 100), Image(300, 200, TypeIntRgb, false)) == 150
    ensures ScaledHeight(Cover(100, 100), Image(300, 200, TypeIntRgb, false)) == 100
    ensures CropX(Cover(100, 100), Image(300, 200, TypeIntRgb, false)) == 25
    ensures CropY(Cover(100, 100), Image(300, 200, TypeIntRgb, false)) == 0
  {
    var s := CoverScale(Cover(100, 100), Image(300, 200, TypeIntRgb, false));
    assert s == Ratio(100, 200);
  }

  /** An extreme aspect ratio still yields exactly the target: 1000x1 covering 100x100. */
  lemma ExtremeAspectExample()
    ensures Apply(Cover(100, 100), Image(1000, 1, TypeIntRgb, false)) == Success(Image(100, 100, TypeIntRgb, false))
    ensures ScaledWidth(Cover(100, 100), Image(1000, 1, TypeIntRgb, false)) == 100000
  {
    var s := CoverScale(Cover(100, 100), Image(1000, 1, TypeIntRgb, false));
    assert s == Ratio(100, 1);
  }

  /** Shrinking to a single pixel: 100x100 covering 1x1. */
  lemma SinglePixelExample()
    ensures Apply(Cover(1, 1), Image(100, 100, TypeIntArgb, true)) == Success(Image(1, 1, TypeIntArgb, true))
  {
  }
}
