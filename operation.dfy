/**
 * Operation: one step of the processing pipeline. The interface becomes a
 * datatype with one variant per implementation.
 */
module Operations {
  import opened Wrappers
  import opened Errors
  import opened Images
  import ResizeOperation
  import CropOperation
  import CoverOperation
  import FitOperation
  import ScaleDownOperation

  datatype Op =
    | Resize(resize: ResizeOperation.ValidResize)
    | Crop(crop: CropOperation.ValidCrop)
    | Cover(cover: CoverOperation.ValidCover)
    | Fit(fit: FitOperation.ValidFit)
    | ScaleDown(scaleDown: ScaleDownOperation.ValidScaleDown)

  /** op.apply(image), dispatched to the implementation. */
  function Apply(op: Op, image: BufferedImage): Result<BufferedImage, Error>
  {
    match op
    case Resize(o) => ResizeOperation.Apply(o, image)
    case Crop(o) => CropOperation.Apply(o, image)
    case Cover(o) => CoverOperation.Apply(o, image)
    case Fit(o) => FitOperation.Apply(o, image)
    case ScaleDown(o) => ScaleDownOperation.Apply(o, image)
  }

  /** The operations applied one after another; the first failure ends the run. */
  function ApplyAll(ops: seq<Op>, image: BufferedImage): Result<BufferedImage, Error>
    decreases |ops|
  {
    if ops == [] then Success(image)
    else
      var next :- Apply(ops[0], image);
      ApplyAll(ops[1..], next)
  }

  /** Running a + b is running a, then b on what a produced. */
  lemma {:induction false} ApplyAllAppend(a: seq<Op>, b: seq<Op>, image: BufferedImage)
    ensures ApplyAll(a + b, image) ==
              match ApplyAll(a, image)
              case Success(mid) => ApplyAll(b, mid)
              case Failure(e) => Failure(e)
    decreases |a|
  {
    if a == [] {
      assert a + b == b;
    } else {
      assert (a + b)[1..] == a[1..] + b;
      match Apply(a[0], image)
      case Success(next) => ApplyAllAppend(a[1..], b, next);
      case Failure(_) =>
    }
  }

  /** One more operation at the end acts on the result of the others. */
  lemma ApplyAllSnoc(ops: seq<Op>, op: Op, image: BufferedImage)
    ensures ApplyAll(ops + [op], image) ==
              match ApplyAll(ops, image)
              case Success(mid) => Apply(op, mid)
              case Failure(e) => Failure(e)
  {
    ApplyAllAppend(ops, [op], image);
    match ApplyAll(ops, image)
    case Success(mid) => assert ApplyAll([op], mid) == Apply(op, mid);
    case Failure(_) =>
  }

  /** The last Resize decides the size: resize(100, 100) then resize(50, 25) gives 50 x 25. */
  lemma ResizeTwiceExample(image: BufferedImage)
    requires image.imageType == TypeIntRgb
    ensures ApplyAll([Resize(ResizeOperation.Resize(100, 100)), Resize(ResizeOperation.Resize(50, 25))], image)
            == Success(Image(50, 25, TypeIntRgb, false))
  {
    var ops := [Resize(ResizeOperation.Resize(100, 100)), Resize(ResizeOperation.Resize(50, 25))];
    assert ops[1..] == [Resize(ResizeOperation.Resize(50, 25))];
    assert ops[1..][1..] == [];
  }

  /** Order matters: crop then resize differs from resize then crop. */
  lemma OrderMatters()
    ensures var image := Image(100, 100, TypeIntRgb, false);
            var crop := Crop(CropOperation.Crop(60, 60, 40, 40));
            var resize := Resize(ResizeOperation.Resize(50, 50));
            && ApplyAll([crop, resize], image) == Success(Image(50, 50, TypeIntRgb, false))
            && ApplyAll([resize, crop], image).Failure?
  {
    var image := Image(100, 100, TypeIntRgb, false);
    var crop := Crop(CropOperation.Crop(60, 60, 40, 40));
    var resize := Resize(ResizeOperation.Resize(50, 50));
    assert [crop, resize][1..] == [resize];
    assert [resize, crop][1..] == [crop];
    assert [resize][1..] == [] && [crop][1..] == [];
    assert Apply(crop, image) == Success(Image(40, 40, TypeIntRgb, false));
    var cropped := Image(40, 40, TypeIntRgb, false);
    assert Apply(resize, cropped) == Success(Image(50, 50, TypeIntRgb, false));
    assert ApplyAll([resize], cropped) == Success(Image(50, 50, TypeIntRgb, false));
    assert Apply(resize, image) == Success(Image(50, 50, TypeIntRgb, false));
  }
}
