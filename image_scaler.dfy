/**
 * ImageScaler: the shared helpers of the operations, at the level of image
 * size and type.
 */
module ImageScaler {
  import opened Wrappers
  import opened Errors
  import opened Images

  /** safeType: TYPE_CUSTOM cannot be passed to the constructor, so it becomes TYPE_INT_ARGB. */
  function SafeType(img: BufferedImage): (t: int)
    ensures img.imageType == TypeCustom ==> t == TypeIntArgb
    ensures img.imageType != TypeCustom ==> t == img.imageType
    ensures IsPredefinedType(t)
  {
    if img.imageType == TypeCustom then TypeIntArgb else img.imageType
  }

  /**
   * scale(source, width, height): a fresh width x height image of type
   * safeType(source); the constructor rejects a non-positive size.
   */
  function Scale(source: BufferedImage, width: int, height: int): (r: Result<BufferedImage, Error>)
    ensures r.Success? <==> width > 0 && height > 0
    ensures r.Success? ==> r.value.width == width && r.value.height == height
                           && r.value.imageType == SafeType(source)
                           && r.value.hasAlpha == TypeHasAlpha(SafeType(source))
  {
    NewImage(width, height, SafeType(source))
  }

  /**
   * copyRegion(source, x, y, width, height): a fresh width x height image of
   * type safeType(source) holding the given rectangle of the source.
   */
  function CopyRegion(source: BufferedImage, x: int, y: int, width: int, height: int): (r: Result<BufferedImage, Error>)
    ensures r.Success? <==> width > 0 && height > 0
    ensures r.Success? ==> r.value.width == width && r.value.height == height
                           && r.value.imageType == SafeType(source)
                           && r.value.hasAlpha == TypeHasAlpha(SafeType(source))
  {
    NewImage(width, height, SafeType(source))
  }

  /** requirePositiveDimensions: an error naming the operation unless both are positive. */
  function RequirePositiveDimensions(width: int, height: int, operationName: string): (r: Outcome<Error>)
    ensures r.Pass? <==> width > 0 && height > 0
    ensures r.Fail? ==> r.error == InvalidDimensions(operationName, width, height)
  {
    if width <= 0 || height <= 0 then Fail(InvalidDimensions(operationName, width, height)) else Pass
  }

  /** A TYPE_CUSTOM source yields an ARGB image, so alpha survives scaling and copying. */
  lemma CustomTypeBecomesArgb(source: BufferedImage, width: int, height: int)
    requires source.imageType == TypeCustom && width > 0 && height > 0
    ensures Scale(source, width, height) == Success(Image(width, height, TypeIntArgb, true))
    ensures CopyRegion(source, 0, 0, width, height) == Success(Image(width, height, TypeIntArgb, true))
  {
  }

  /** safeType is the identity on every type the constructor accepts. */
  lemma SafeTypeIdempotent(img: BufferedImage)
    ensures IsPredefinedType(img.imageType) ==> SafeType(img) == img.imageType
    ensures SafeType(img.(imageType := SafeType(img))) == SafeType(img)
  {
  }
}
