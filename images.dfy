/**
 * java.awt.image.BufferedImage at the level the library observes it: its size,
 * its type code and whether its colour model carries alpha. Pixels are not
 * modelled.
 */
module Images {
  import opened Wrappers
  import opened Errors

  // The BufferedImage.TYPE_* codes the library mentions; 1..13 are the predefined types.
  const TypeCustom: int := 0
  const TypeIntRgb: int := 1
  const TypeIntArgb: int := 2
  const TypeIntArgbPre: int := 3
  const Type3ByteBgr: int := 5
  const Type4ByteAbgr: int := 6
  const Type4ByteAbgrPre: int := 7
  const TypeByteGray: int := 10
  const TypeByteIndexed: int := 13

  datatype Image = Image(width: int, height: int, imageType: int, hasAlpha: bool)

  /** What every BufferedImage satisfies: a positive size and a known type code. */
  predicate Valid(img: Image)
  {
    img.width >= 1 && img.height >= 1 && TypeCustom <= img.imageType <= TypeByteIndexed
  }

  type BufferedImage = img: Image | Valid(img) witness Image(1, 1, TypeIntRgb, false)

  /** A type code the BufferedImage constructor accepts. */
  predicate IsPredefinedType(t: int)
  {
    TypeIntRgb <= t <= TypeByteIndexed
  }

  /** The predefined types whose default colour model has an alpha channel. */
  predicate TypeHasAlpha(t: int)
  {
    t == TypeIntArgb || t == TypeIntArgbPre || t == Type4ByteAbgr || t == Type4ByteAbgrPre
  }

  /**
   * new BufferedImage(width, height, type): an image of exactly that size and
   * type, or an IllegalArgumentException for a non-positive size or an unknown
   * type (TYPE_CUSTOM included).
   */
  function NewImage(width: int, height: int, imageType: int): (r: Result<BufferedImage, Error>)
    ensures r.Success? <==> width > 0 && height > 0 && IsPredefinedType(imageType)
    ensures r.Success? ==> r.value.width == width && r.value.height == height
                           && r.value.imageType == imageType && r.value.hasAlpha == TypeHasAlpha(imageType)
    ensures r.Failure? ==> r.error == IllegalImageArguments(width, height, imageType)
  {
    if width > 0 && height > 0 && IsPredefinedType(imageType) then
      Success(Image(width, height, imageType, TypeHasAlpha(imageType)))
    else
      Failure(IllegalImageArguments(width, height, imageType))
  }

  /**
   * getSubimage(x, y, w, h): the region of the same type and colour model; a
   * region not inside the image is a RasterFormatException.
   */
  function Subimage(img: BufferedImage, x: int, y: int, w: int, h: int): (r: Result<BufferedImage, Error>)
    ensures r.Success? <==> 0 <= x && 0 <= y && 0 < w && 0 < h && x + w <= img.width && y + h <= img.height
    ensures r.Success? ==> r.value == img.(width := w, height := h)
    ensures r.Failure? ==> r.error == SubimageOutOfBounds(x, y, w, h)
  {
    if 0 <= x && 0 <= y && 0 < w && 0 < h && x + w <= img.width && y + h <= img.height then
      Success(img.(width := w, height := h))
    else
      Failure(SubimageOutOfBounds(x, y, w, h))
  }
}
