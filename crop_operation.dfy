/** CropOperation: cut a rectangle out of an image. */
module CropOperation {
  import opened Wrappers
  import opened Errors
  import opened Images
  import ImageScaler

  datatype Crop = Crop(x: int, y: int, width: int, height: int)

  /** An instance the compact constructor let through. */
  type ValidCrop = op: Crop | op.x >= 0 && op.y >= 0 && op.width > 0 && op.height > 0
    witness Crop(0, 0, 1, 1)

  /** The compact constructor: the size is checked first, then the origin. */
  function New(x: int, y: int, width: int, height: int): (r: Result<ValidCrop, Error>)
    ensures r.Success? <==> x >= 0 && y >= 0 && width > 0 && height > 0
    ensures r.Success? ==> r.value == Crop(x, y, width, height)
    ensures (width <= 0 || height <= 0) ==> r == Failure(InvalidDimensions("Crop", width, height))
    ensures width > 0 && height > 0 && (x < 0 || y < 0) ==> r == Failure(NegativeCropOrigin(x, y))
  {
    var sizeCheck := ImageScaler.RequirePositiveDimensions(width, height, "Crop");
    if sizeCheck.Fail? then Failure(sizeCheck.error)
    else if x < 0 || y < 0 then Failure(NegativeCropOrigin(x, y))
    else Success(Crop(x, y, width, height))
  }

  /** Whether the region of op lies inside an image of the given size. */
  predicate Inside(op: Crop, imageWidth: int, imageHeight: int)
  {
    op.x + op.width <= imageWidth && op.y + op.height <= imageHeight
  }

  /**
   * apply: a region reaching past the right or bottom edge is an error;
   * otherwise a fresh copy of the region, of type safeType(image).
   */
  function Apply(op: ValidCrop, image: BufferedImage): (r: Result<BufferedImage, Error>)
    ensures r.Success? <==> Inside(op, image.width, image.height)
    ensures r.Success? ==> r.value.width == op.width && r.value.height == op.height
                           && r.value.imageType == ImageScaler.SafeType(image)
    ensures r.Failure? ==> r.error == CropOutOfBounds(op.x, op.y, op.width, op.height, image.width, image.height)
  {
    if op.x + op.width > image.width || op.y + op.height > image.height then
      Failure(CropOutOfBounds(op.x, op.y, op.width, op.height, image.width, image.height))
    else
      ImageScaler.CopyRegion(image, op.x, op.y, op.width, op.height)
  }

  /** new CropOperation(x, y, width, height).apply(image). */
  function CropImage(x: int, y: int, width: int, height: int, image: BufferedImage): Result<BufferedImage, Error>
  {
    var op :- New(x, y, width, height);
    Apply(op, image)
  }

  /** Constructing and applying succeeds exactly for a non-empty region inside the image. */
  lemma CropSucceedsIff(x: int, y: int, width: int, height: int, image: BufferedImage)
    ensures CropImage(x, y, width, height, image).Success? <==>
              0 <= x && 0 <= y && 0 < width && 0 < height
              && x + width <= image.width && y + height <= image.height
    ensures CropImage(x, y, width, height, image).Success? ==>
              CropImage(x, y, width, height, image).value.width == width
              && CropImage(x, y, width, height, image).value.height == height
  {
  }

  /** A crop of the whole image and a crop touching the far corner both succeed. */
  lemma EdgeCrops(image: BufferedImage)
    ensures CropImage(0, 0, image.width, image.height, image).Success?
    ensures CropImage(image.width - 1, image.height - 1, 1, 1, image).Success?
  {
  }

  /** One pixel too far on either axis fails with the bounds error. */
  lemma OnePastTheEdge(image: BufferedImage)
    ensures Apply(Crop(1, 0, image.width, 1), image)
            == Failure(CropOutOfBounds(1, 0, image.width, 1, image.width, image.height))
    ensures Apply(Crop(0, 1, 1, image.height), image)
            == Failure(CropOutOfBounds(0, 1, 1, image.height, image.width, image.height))
  {
  }

  // ---- The bounds check as compiled: x + width is a 32-bit int sum. ----

  const IntMin: int := -0x8000_0000
  const IntMax: int := 0x7FFF_FFFF

  predicate IsInt(v: int)
  {
    IntMin <= v <= IntMax
  }

  /** Java's int addition: the mathematical sum wrapped into 32 bits. */
  function AddInt(a: int, b: int): (r: int)
    ensures IsInt(r)
    ensures (r - (a + b)) % 0x1_0000_0000 == 0
    ensures IsInt(a + b) ==> r == a + b
  {
    (a + b - IntMin) % 0x1_0000_0000 + IntMin
  }

  /** An operation whose fields are Java ints, as the record declares them. */
  predicate IsIntCrop(op: Crop)
  {
    IsInt(op.x) && IsInt(op.y) && IsInt(op.width) && IsInt(op.height)
  }

  /** apply exactly as written, with the sums wrapping around. */
  function ApplyAsWritten(op: ValidCrop, image: BufferedImage): (r: Result<BufferedImage, Error>)
    requires IsIntCrop(op) && IsInt(image.width) && IsInt(image.height)
    ensures r.Success? <==> AddInt(op.x, op.width) <= image.width && AddInt(op.y, op.height) <= image.height
    ensures r.Success? ==> r.value.width == op.width && r.value.height == op.height
  {
    if AddInt(op.x, op.width) > image.width || AddInt(op.y, op.height) > image.height then
      Failure(CropOutOfBounds(op.x, op.y, op.width, op.height, image.width, image.height))
    else
      ImageScaler.CopyRegion(image, op.x, op.y, op.width, op.height)
  }

  /** Without overflow the compiled check and the intended one agree. */
  lemma AsWrittenAgreesWithoutOverflow(op: ValidCrop, image: BufferedImage)
    requires IsIntCrop(op) && IsInt(image.width) && IsInt(image.height)
    requires IsInt(op.x + op.width) && IsInt(op.y + op.height)
    ensures ApplyAsWritten(op, image) == Apply(op, image)
  {
  }

  /**
   * new CropOperation(Integer.MAX_VALUE, 0, 1, 1) passes the bounds check of a
   * 10 x 10 image, since MAX_VALUE + 1 wraps to MIN_VALUE, and yields a 1 x 1
   * copy of a region lying wholly outside the image.
   */
  lemma OverflowAcceptsOutsideRegion()
    ensures New(IntMax, 0, 1, 1).Success?
    ensures ApplyAsWritten(Crop(IntMax, 0, 1, 1), Image(10, 10, TypeIntRgb, false)).Success?
    ensures !Inside(Crop(IntMax, 0, 1, 1), 10, 10)
    ensures Apply(Crop(IntMax, 0, 1, 1), Image(10, 10, TypeIntRgb, false)).Failure?
  {
    assert AddInt(IntMax, 1) == IntMin;
  }
}
