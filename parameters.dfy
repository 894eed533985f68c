/** The parameter records of the native library (lib.rs) and the chroma
    subsampling modes (jpeg.rs). */
module Parameters {
  import opened Common

  /** JPEG chroma subsampling modes, in the order of the Rust enum and of
      the Java enum whose ordinal the host passes. */
  datatype ChromaSubsampling = CS444 | CS422 | CS420 | CS411 | Auto

  datatype JpegParameters = JpegParameters(quality: U32, chromaSubsampling: ChromaSubsampling)

  datatype PngParameters = PngParameters(quality: U32, forceZopfli: bool)

  datatype WebPParameters = WebPParameters(quality: U32)

  /** `CSParameters`: the parameter set every pipeline reads. */
  datatype CSParameters = CSParameters(
    jpeg: JpegParameters,
    png: PngParameters,
    webp: WebPParameters,
    keepMetadata: bool,
    optimize: bool,
    width: U32,
    height: U32,
    outputSize: U32)

  /** `CCSParameters`: the flat record the host binding fills in; the chroma
      mode arrives as the Java enum's ordinal. */
  datatype CCSParameters = CCSParameters(
    keepMetadata: bool,
    jpegQuality: U32,
    jpegChromaSubsampling: U32,
    pngQuality: U32,
    pngForceZopfli: bool,
    webpQuality: U32,
    optimize: bool,
    width: U32,
    height: U32)

  /** `CCSResult`: the success flag and message handed back to the host. */
  datatype CCSResult = CCSResult(success: bool, errorMessage: string)

  /** The test every pipeline makes before resizing: a nonzero target on
      either axis. */
  predicate ResizeRequested(p: CSParameters) {
    p.width > 0 || p.height > 0
  }
}

/** The resize collaborator. Its module (resize.rs) is not part of this
    model: both entry points are opaque functions supplied by the caller. */
module Resize {
  import opened Common

  /** `image::ImageOutputFormat`, the container `resize` re-encodes into. */
  datatype OutputFormat = JpegFormat(quality: Byte) | PngFormat

  /** `resize(bytes, width, height, format)`: decode, scale, re-encode. */
  type ResizeFn = (seq<Byte>, U32, U32, OutputFormat) -> Result<seq<Byte>>

  /** A decoded image (`image::DynamicImage`), opaque to the model. */
  type DecodedImage = seq<int>

  /** `resize_image(image, width, height)`: scale a decoded image. */
  type ResizeImageFn = (DecodedImage, U32, U32) -> Result<DecodedImage>
}
