/** The WebP pipeline (webp.rs): decode, resize the decoded image when a
    size is requested, and encode, losslessly only when optimizing an image
    that was not resized. The webp crate is not part of this model;
    `WebPLibs` supplies its calls. */
module WebPPipeline {
  import opened Common
  import opened Parameters
  import opened Resize

  /** A configured `webp::Encoder`, opaque to the model. */
  datatype WebPEncoder = WebPEncoder(state: seq<int>)

  /** The two ways the encoder is run. */
  datatype EncodeMode = Lossless | Lossy(quality: U32)

  /** The crate calls: `decode` (`Decoder::decode` then `to_image`, `None`
      when the input does not decode), `fromImage` (`Encoder::from_image`),
      `encode` (`encode_lossless`, or `encode` at a quality), and the resize
      module's `resize_image`. */
  datatype WebPLibs = WebPLibs(
    decode: seq<Byte> -> Option<DecodedImage>,
    fromImage: DecodedImage -> Result<WebPEncoder>,
    encode: (WebPEncoder, EncodeMode) -> seq<Byte>,
    resizeImage: ResizeImageFn)

  const DecodeFailed := "WebP decode failed!"

  /** The encoding chosen: lossless exactly when optimizing and no resize
      is requested, lossy at the WebP quality in every other case. */
  function Mode(p: CSParameters): (m: EncodeMode)
    ensures m.Lossless? <==> p.optimize && !ResizeRequested(p)
    ensures m.Lossy? ==> m.quality == p.webp.quality
  {
    if p.optimize then
      if ResizeRequested(p) then Lossy(p.webp.quality) else Lossless
    else
      Lossy(p.webp.quality)
  }

  /** `compress_to_memory`. */
  function CompressToMemory(libs: WebPLibs, input: seq<Byte>, p: CSParameters): (r: Result<seq<Byte>>)
    ensures libs.decode(input).None? ==> r == Err(DecodeFailed)
  {
    match libs.decode(input)
    case None => Err(DecodeFailed)
    case Some(decoded) =>
      var image :- if ResizeRequested(p) then libs.resizeImage(decoded, p.width, p.height) else Ok(decoded);
      var encoder :- libs.fromImage(image);
      Ok(libs.encode(encoder, Mode(p)))
  }

  /** The stages in order: a decode failure stops everything; the decoded
      image is resized only when a size is requested, and a resize failure
      is returned; an encoder failure is returned; otherwise the encoder's
      output at the chosen mode is the result. */
  lemma CompressToMemoryStages(libs: WebPLibs, input: seq<Byte>, p: CSParameters)
    requires libs.decode(input).Some?
    ensures var decoded := libs.decode(input).value;
      var image := if ResizeRequested(p) then libs.resizeImage(decoded, p.width, p.height) else Ok(decoded);
      var r := CompressToMemory(libs, input, p);
      && (image.IsFailure() ==> r == image.PropagateFailure())
      && (image.Ok? && libs.fromImage(image.value).IsFailure() ==> r == libs.fromImage(image.value).PropagateFailure())
      && (image.Ok? && libs.fromImage(image.value).Ok? ==> r == Ok(libs.encode(libs.fromImage(image.value).value, Mode(p))))
  {
  }

  /** Without a requested size the resize is never called: the outcome does
      not depend on it. */
  lemma NoResizeWithoutSize(libs: WebPLibs, input: seq<Byte>, p: CSParameters, other: ResizeImageFn)
    requires !ResizeRequested(p)
    ensures CompressToMemory(libs, input, p) == CompressToMemory(libs.(resizeImage := other), input, p)
  {
  }

  /** `compress`: the output buffer is replaced only on success. */
  method Compress(libs: WebPLibs, input: seq<Byte>, out: OutBuffer, p: CSParameters) returns (r: Result<()>)
    modifies out
    ensures r == CompressToMemory(libs, input, p).Forget()
    ensures out.data == if r.Ok? then CompressToMemory(libs, input, p).value else old(out.data)
  {
    var result := CompressToMemory(libs, input, p);
    r := result.Forget();
    if result.Ok? {
      out.data := result.value;
    }
  }
}
