/**
 * The failures the library reports. Almost all of them are an ImageEditorException
 * with a descriptive message in the Java code; the constructor arguments here carry
 * the values that message names. IllegalArgumentException cases are marked.
 */
module Errors {

  datatype Error =
    // ImageFormat.fromExtension
    | NullExtension
    | UnsupportedFormat(extension: string)
    // FormatDetector.getExtension
    | NoExtension(fileName: string)
    // operation constructors (ImageScaler.requirePositiveDimensions and friends)
    | InvalidDimensions(operation: string, width: int, height: int)
    | NegativeCropOrigin(x: int, y: int)
    // CropOperation.apply
    | CropOutOfBounds(x: int, y: int, width: int, height: int, imageWidth: int, imageHeight: int)
    // IllegalArgumentException from the java.awt BufferedImage constructor
    | IllegalImageArguments(width: int, height: int, imageType: int)
    // RasterFormatException from BufferedImage.getSubimage
    | SubimageOutOfBounds(x: int, y: int, width: int, height: int)
    // IllegalArgumentException from the quality setters
    | InvalidQuality
    // an IOException while reading an input stream
    | StreamFailed
    // an IOException while copying a converted temp file to an output stream
    | StreamWriteFailed
    // reading and writing
    | CouldNotDecode(path: string)
    | CouldNotDecodeStream
    | ReadFailed(path: string)
    | NoWriter(formatName: string)
    // CliToolRunner.runProcess
    | ToolNotFound(tool: string)
    | ToolTimedOut(tool: string)
    | ToolFailed(tool: string, exitCode: int, output: string)
    | ToolInterrupted(tool: string)
    // ImageEditor
    | FormatUndetectable
    | NotADirectory(path: string)
    | CouldNotCreateDirectory(path: string)
    | ListingFailed(path: string)
}
