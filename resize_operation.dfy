/** ResizeOperation: stretch an image to an exact size, ignoring its aspect ratio. */
module ResizeOperation {
  import opened Wrappers
  import opened Errors
  import opened Images

  datatype Resize = Resize(width: int, height: int)

  /** An instance the constructor let through. */
  type ValidResize = op: Resize | op.width > 0 && op.height > 0 witness Resize(1, 1)

  /** The constructor: both target dimensions must be positive. */
  function New(width: int, height: int): (r: Result<ValidResize, Error>)
    ensures r.Success? <==> width > 0 && height > 0
    ensures r.Success? ==> r.value == Resize(width, height)
    ensures r.Failure? ==> r.error == InvalidDimensions("Resize", width, height)
  {
    if width <= 0 || height <= 0 then Failure(InvalidDimensions("Resize", width, height))
    else Success(Resize(width, height))
  }

  /**
   * apply: a new image of the target size with the source's type code, which
   * the BufferedImage constructor rejects for TYPE_CUSTOM.
   */
  function Apply(op: ValidResize, image: BufferedImage): (r: Result<BufferedImage, Error>)
    ensures r.Success? <==> image.imageType != TypeCustom
    ensures r.Success? ==> r.value.width == op.width && r.value.height == op.height
                           && r.value.imageType == image.imageType
    ensures r.Failure? ==> r.error == IllegalImageArguments(op.width, op.height, TypeCustom)
  {
    NewImage(op.width, op.height, image.imageType)
  }

  /** The output size depends on the operation only, never on the input size. */
  lemma SizeIndependentOfInput(op: ValidResize, a: BufferedImage, b: BufferedImage)
    requires a.imageType == b.imageType
    ensures Apply(op, a) == Apply(op, b)
  {
  }

  /** Enlarging is allowed: 50x50 ARGB becomes 200x150 ARGB. */
  lemma EnlargeExample()
    ensures New(200, 150).Success?
    ensures Apply(Resize(200, 150), Image(50, 50, TypeIntArgb, true)) == Success(Image(200, 150, TypeIntArgb, true))
  {
  }

  /** The input type is kept, for instance TYPE_INT_RGB stays without alpha. */
  lemma PreservesTypeExample()
    ensures Apply(Resize(10, 20), Image(100, 100, TypeIntRgb, false)) == Success(Image(10, 20, TypeIntRgb, false))
  {
  }

  lemma RejectsNonPositive(n: int)
    requires n <= 0
    ensures New(n, 10) == Failure(InvalidDimensions("Resize", n, 10))
    ensures New(10, n) == Failure(InvalidDimensions("Resize", 10, n))
  {
  }
}
