/** The library's entry layer (lib.rs): the default parameters, copying the
    host's flat record into them, validating the qualities, routing to one
    pipeline by file type, and turning the outcome into the record handed
    back to the host. */
module Lib {
  import opened Common
  import opened Parameters
  import JpegSampling
  import MozJpeg
  import JpegPipeline
  import PngPipeline
  import WebPPipeline

  /** `SupportedFileTypes`, what the file-type sniffer (utils.rs) reports. */
  datatype SupportedFileTypes = Jpeg | Png | WebP | Unkn

  /** Everything the entry layer calls and does not define: the sniffer and
      the collaborators of each pipeline. */
  datatype Env = Env(
    classify: seq<Byte> -> SupportedFileTypes,
    jpeg: JpegPipeline.Libs,
    png: PngPipeline.PngLibs,
    webp: WebPPipeline.WebPLibs)

  const InvalidJpegQuality := "Invalid JPEG quality value"
  const InvalidPngQuality := "Invalid PNG quality value"
  const InvalidWebPQuality := "Invalid WebP quality value"
  const UnknownFileType := "Unknown file type"

  /** `validate_parameters`: JPEG quality must lie in 1..100, PNG and WebP
      quality in 0..100; the checks run in that order, so the first bad
      quality is the one reported. */
  function ValidateParameters(p: CSParameters): (r: Result<()>)
    ensures !r.Panic?
    ensures r.Ok? <==> 1 <= p.jpeg.quality <= 100 && p.png.quality <= 100 && p.webp.quality <= 100
    ensures !(1 <= p.jpeg.quality <= 100) ==> r == Err(InvalidJpegQuality)
    ensures 1 <= p.jpeg.quality <= 100 && p.png.quality > 100 ==> r == Err(InvalidPngQuality)
    ensures 1 <= p.jpeg.quality <= 100 && p.png.quality <= 100 && p.webp.quality > 100 ==> r == Err(InvalidWebPQuality)
  {
    if p.jpeg.quality == 0 || p.jpeg.quality > 100 then Err(InvalidJpegQuality)
    else if p.png.quality > 100 then Err(InvalidPngQuality)
    else if p.webp.quality > 100 then Err(InvalidWebPQuality)
    else Ok(())
  }

  /** What `compress` stores in the output buffer on success: the chosen
      pipeline's output. Parameters are validated before the file type is
      looked at. */
  function Compressed(env: Env, input: seq<Byte>, p: CSParameters): (r: Result<seq<Byte>>)
    ensures ValidateParameters(p).Err? ==> r == Err(ValidateParameters(p).error)
    ensures ValidateParameters(p).Ok? ==>
      && (env.classify(input) == Jpeg ==> r == JpegPipeline.CompressToMemory(env.jpeg, input, p))
      && (env.classify(input) == Png ==> r == PngPipeline.Output(env.png, input, p))
      && (env.classify(input) == WebP ==> r == WebPPipeline.CompressToMemory(env.webp, input, p))
      && (env.classify(input) == Unkn ==> r == Err(UnknownFileType))
  {
    var _ :- ValidateParameters(p);
    match env.classify(input)
    case Jpeg => JpegPipeline.CompressToMemory(env.jpeg, input, p)
    case Png => PngPipeline.Output(env.png, input, p)
    case WebP => WebPPipeline.CompressToMemory(env.webp, input, p)
    case Unkn => Err(UnknownFileType)
  }

  /** Invalid parameters are reported before anything else happens: the
      outcome is the validation error whatever the sniffer and the codecs
      would do. */
  lemma ValidationComesFirst(env: Env, other: Env, input: seq<Byte>, p: CSParameters)
    requires ValidateParameters(p).Err?
    ensures Compressed(env, input, p) == Compressed(other, input, p) == Err(ValidateParameters(p).error)
  {
  }

  /** With valid parameters each file type goes to its own pipeline and to
      no other: the outcome is that pipeline's, and does not depend on the
      other pipelines' codecs. An unknown type fails without any codec. */
  lemma EachTypeToItsOwnPipeline(env: Env, other: Env, input: seq<Byte>, p: CSParameters)
    requires ValidateParameters(p).Ok?
    requires other.classify == env.classify
    ensures env.classify(input) == Jpeg ==>
      && Compressed(env, input, p) == JpegPipeline.CompressToMemory(env.jpeg, input, p)
      && (other.jpeg == env.jpeg ==> Compressed(other, input, p) == Compressed(env, input, p))
    ensures env.classify(input) == Png ==>
      && Compressed(env, input, p) == PngPipeline.Output(env.png, input, p)
      && (other.png == env.png ==> Compressed(other, input, p) == Compressed(env, input, p))
    ensures env.classify(input) == WebP ==>
      && Compressed(env, input, p) == WebPPipeline.CompressToMemory(env.webp, input, p)
      && (other.webp == env.webp ==> Compressed(other, input, p) == Compressed(env, input, p))
    ensures env.classify(input) == Unkn ==>
      Compressed(env, input, p) == Compressed(other, input, p) == Err(UnknownFileType)
  {
  }

  /** `compress`: validate, classify, and run the one matching pipeline,
      which replaces the output buffer only on success. */
  method Compress(env: Env, input: seq<Byte>, out: OutBuffer, p: CSParameters) returns (r: Result<()>)
    modifies out
    ensures r == Compressed(env, input, p).Forget()
    ensures out.data == if r.Ok? then Compressed(env, input, p).value else old(out.data)
  {
    var valid := ValidateParameters(p);
    if valid.IsFailure() {
      return valid.PropagateFailure();
    }
    match env.classify(input) {
      case Jpeg => r := JpegPipeline.Compress(env.jpeg, input, out, p);
      case Png => r := PngPipeline.Compress(env.png, input, out, p);
      case WebP => r := WebPPipeline.Compress(env.webp, input, out, p);
      case Unkn => return Err(UnknownFileType);
    }
  }

  /** `initialize_parameters`. */
  function InitializeParameters(): (p: CSParameters)
    ensures p.jpeg == JpegParameters(80, Auto)
    ensures p.png == PngParameters(80, false) && p.webp == WebPParameters(80)
    ensures !p.keepMetadata && !p.optimize
    ensures p.width == 0 && p.height == 0 && p.outputSize == 0
  {
    CSParameters(JpegParameters(80, Auto), PngParameters(80, false), WebPParameters(80),
                 false, false, 0, 0, 0)
  }

  /** The defaults pass validation and request no resize. */
  lemma DefaultsAreValid()
    ensures ValidateParameters(InitializeParameters()).Ok?
    ensures !ResizeRequested(InitializeParameters())
  {
  }

  /** The parameters `my_compress` builds: the defaults with eight fields
      of the host's record copied over. The chroma ordinal is never copied,
      and `output_size` keeps its default. */
  function ToParameters(c: CCSParameters): (p: CSParameters)
    ensures p.jpeg.quality == c.jpegQuality && p.png.quality == c.pngQuality && p.webp.quality == c.webpQuality
    ensures p.optimize == c.optimize && p.keepMetadata == c.keepMetadata && p.png.forceZopfli == c.pngForceZopfli
    ensures p.width == c.width && p.height == c.height
    ensures p.jpeg.chromaSubsampling == Auto && p.outputSize == 0
  {
    var d := InitializeParameters();
    d.(jpeg := d.jpeg.(quality := c.jpegQuality),
       png := PngParameters(c.pngQuality, c.pngForceZopfli),
       webp := WebPParameters(c.webpQuality),
       optimize := c.optimize, keepMetadata := c.keepMetadata,
       width := c.width, height := c.height)
  }

  /** The chroma mode the host asks for has no effect: two records that
      differ only in it give the same parameters, and the lossy JPEG
      encoder keeps the library's default sampling factors. */
  lemma ChromaRequestIgnored(c: CCSParameters, ordinal: U32, lib: MozJpeg.Library, header: MozJpeg.Header)
    ensures ToParameters(c) == ToParameters(c.(jpegChromaSubsampling := ordinal))
    ensures JpegPipeline.LossySetup(lib, header, ToParameters(c)).compInfo
            == lib.setDefaults(header.colorSpace, JpegSampling.InputComponents(header.colorSpace))
  {
  }

  /** `c_return_result`: success with an empty message on `Ok`, failure
      with the error's text on `Err`. Building the C string panics when the
      text holds a NUL character; that is the `None` case. */
  function CReturnResult(result: Result<()>): (r: Option<CCSResult>)
    requires !result.Panic?
    ensures result.Ok? ==> r == Some(CCSResult(true, ""))
    ensures result.Err? && '\0' !in result.error ==> r == Some(CCSResult(false, result.error))
    ensures r.None? <==> result.Err? && '\0' in result.error
  {
    match result
    case Ok(_) => Some(CCSResult(true, ""))
    case Err(e) => if '\0' in e then None else Some(CCSResult(false, e))
  }

  /** The record handed back reports success exactly when the output was
      produced, and an error message exactly when it was not. */
  lemma ResultReportsOutcome(result: Result<()>)
    requires !result.Panic?
    requires CReturnResult(result).Some?
    ensures CReturnResult(result).value.success <==> result.Ok?
    ensures CReturnResult(result).value.errorMessage == "" <==> result.Ok? || result.error == ""
  {
  }

  /** `my_compress`: the parameters are built field by field on top of the
      defaults, then `compress` runs. `None` means the call does not
      return: a panic unwinds out of it. */
  method MyCompress(env: Env, input: seq<Byte>, out: OutBuffer, params: CCSParameters) returns (r: Option<CCSResult>)
    modifies out
    ensures var outcome := Compressed(env, input, ToParameters(params));
      && (outcome.Panic? ==> r.None?)
      && (!outcome.Panic? ==> r == CReturnResult(outcome.Forget()))
      && out.data == if outcome.Ok? then outcome.value else old(out.data)
  {
    var parameters := InitializeParameters();
    parameters := parameters.(jpeg := parameters.jpeg.(quality := params.jpegQuality));
    parameters := parameters.(png := parameters.png.(quality := params.pngQuality));
    parameters := parameters.(optimize := params.optimize);
    parameters := parameters.(keepMetadata := params.keepMetadata);
    parameters := parameters.(png := parameters.png.(forceZopfli := params.pngForceZopfli));
    parameters := parameters.(webp := parameters.webp.(quality := params.webpQuality));
    parameters := parameters.(width := params.width);
    parameters := parameters.(height := params.height);
    assert parameters == ToParameters(params);
    var result := Compress(env, input, out, parameters);
    if result.Panic? {
      return None;
    }
    return CReturnResult(result);
  }
}
