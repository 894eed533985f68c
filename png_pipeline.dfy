/** The PNG pipeline (png.rs): an optional resize to PNG, then either a
    lossless optimisation by oxipng (optimize) or a lossy palette
    quantisation by imagequant re-encoded by lodepng. The three crates are
    not part of this model; `PngLibs` supplies their calls. */
module PngPipeline {
  import opened Common
  import opened Parameters
  import opened Resize

  /** lodepng's `decode32` result: RGBA pixels and the image size. */
  datatype Bitmap = Bitmap(buffer: seq<int>, width: nat, height: nat)

  /** imagequant's attribute object, image and quantisation result, and
      lodepng's encoder, each opaque to the model. */
  datatype Attributes = Attributes(state: seq<int>)
  datatype LiqImage = LiqImage(state: seq<int>)
  datatype Quantization = Quantization(state: seq<int>)
  datatype Encoder = Encoder(state: seq<int>)

  /** A palette as imagequant produces it. */
  type Palette = seq<int>

  /** oxipng's `Headers`: which metadata chunks the optimiser strips. */
  datatype Headers = StripNone | StripSafe | StripAll | StripListed(chunks: seq<string>) | KeepListed(chunks: seq<string>)

  /** oxipng's `Deflaters`. */
  datatype Deflater = Libdeflater(compression: nat) | Zopfli(iterations: nat)

  /** oxipng's `Options`: the two fields the pipeline sets, and the rest. */
  datatype OxipngOptions = OxipngOptions(strip: Headers, deflate: Deflater, rest: seq<int>)

  /** The crate calls:
      - `decode32`: lodepng's RGBA decode;
      - `newAttributes` (`imagequant::new()`), `setQuality(attrs, min, max)`,
        `newImage(attrs, pixels, width, height)`, `quantize(attrs, image)`,
        `remapped(quantization, image)` giving the palette and the
        palette-index pixels;
      - `newEncoder` (`Encoder::new()`), `setPalette(encoder, palette)`,
        `encode(encoder, pixels, width, height)`;
      - `defaultOptions` (`Options::default()`), `fromPreset(level)`, and
        `optimize` (`optimize_from_memory`). */
  datatype PngLibs = PngLibs(
    decode32: seq<Byte> -> Result<Bitmap>,
    newAttributes: Attributes,
    setQuality: (Attributes, Byte, Byte) -> Result<Attributes>,
    newImage: (Attributes, seq<int>, nat, nat) -> Result<LiqImage>,
    quantize: (Attributes, LiqImage) -> Result<Quantization>,
    remapped: (Quantization, LiqImage) -> Result<(Palette, seq<Byte>)>,
    newEncoder: Encoder,
    setPalette: (Encoder, Palette) -> Result<Encoder>,
    encode: (Encoder, seq<Byte>, nat, nat) -> Result<seq<Byte>>,
    defaultOptions: OxipngOptions,
    fromPreset: nat -> OxipngOptions,
    optimize: (seq<Byte>, OxipngOptions) -> Result<seq<Byte>>,
    resize: ResizeFn)

  /** `lossy`: seven stages, each returning its error at once. On success
      the palette-index pixels and the palette of the remapping are encoded
      at the decoded size, after quantising with the quality range
      `(0, quality as u8)`. */
  function Lossy(libs: PngLibs, input: seq<Byte>, p: CSParameters): (r: Result<seq<Byte>>)
    ensures r.Ok? ==>
      && libs.decode32(input).Ok?
      && var bitmap := libs.decode32(input).value;
      && libs.setQuality(libs.newAttributes, 0, AsU8(p.png.quality)).Ok?
      && var attrs := libs.setQuality(libs.newAttributes, 0, AsU8(p.png.quality)).value;
      && libs.newImage(attrs, bitmap.buffer, bitmap.width, bitmap.height).Ok?
      && var image := libs.newImage(attrs, bitmap.buffer, bitmap.width, bitmap.height).value;
      && libs.quantize(attrs, image).Ok?
      && libs.remapped(libs.quantize(attrs, image).value, image).Ok?
      && var (palette, pixels) := libs.remapped(libs.quantize(attrs, image).value, image).value;
      && libs.setPalette(libs.newEncoder, palette).Ok?
      && libs.encode(libs.setPalette(libs.newEncoder, palette).value, pixels, bitmap.width, bitmap.height) == Ok(r.value)
    ensures var bitmap := libs.decode32(input);
      && (bitmap.IsFailure() ==> r == bitmap.PropagateFailure())
      && (bitmap.Ok? ==> StagesFromQuality(libs, bitmap.value, p, r))
  {
    var bitmap :- libs.decode32(input);
    var attrs :- libs.setQuality(libs.newAttributes, 0, AsU8(p.png.quality));
    var image :- libs.newImage(attrs, bitmap.buffer, bitmap.width, bitmap.height);
    var quantization :- libs.quantize(attrs, image);
    var remap :- libs.remapped(quantization, image);
    var encoder :- libs.setPalette(libs.newEncoder, remap.0);
    libs.encode(encoder, remap.1, bitmap.width, bitmap.height)
  }

  /** The outcome of the lossy stages after the decode: the error of the
      first stage that fails is returned as it is (a panic stays a panic),
      and when every stage succeeds the outcome is the encoder's. */
  predicate StagesFromQuality(libs: PngLibs, bitmap: Bitmap, p: CSParameters, r: Result<seq<Byte>>) {
    var attrs := libs.setQuality(libs.newAttributes, 0, AsU8(p.png.quality));
    && (attrs.IsFailure() ==> r == attrs.PropagateFailure())
    && (attrs.Ok? ==>
          var image := libs.newImage(attrs.value, bitmap.buffer, bitmap.width, bitmap.height);
          && (image.IsFailure() ==> r == image.PropagateFailure())
          && (image.Ok? ==>
                var quantization := libs.quantize(attrs.value, image.value);
                && (quantization.IsFailure() ==> r == quantization.PropagateFailure())
                && (quantization.Ok? ==>
                      var remap := libs.remapped(quantization.value, image.value);
                      && (remap.IsFailure() ==> r == remap.PropagateFailure())
                      && (remap.Ok? ==>
                            var encoder := libs.setPalette(libs.newEncoder, remap.value.0);
                            && (encoder.IsFailure() ==> r == encoder.PropagateFailure())
                            && (encoder.Ok? ==> r == libs.encode(encoder.value, remap.value.1, bitmap.width, bitmap.height))))))
  }

  /** How many of the seven lossy stages run: up to and including the first
      one that fails, all seven when none does. */
  function LossyStagesRun(libs: PngLibs, input: seq<Byte>, p: CSParameters): (n: nat)
    ensures 1 <= n <= 7
  {
    match libs.decode32(input)
    case Ok(bitmap) => (
      match libs.setQuality(libs.newAttributes, 0, AsU8(p.png.quality))
      case Ok(attrs) => (
        match libs.newImage(attrs, bitmap.buffer, bitmap.width, bitmap.height)
        case Ok(image) => (
          match libs.quantize(attrs, image)
          case Ok(quantization) => (
            match libs.remapped(quantization, image)
            case Ok(remap) => (
              match libs.setPalette(libs.newEncoder, remap.0)
              case Ok(_) => 7
              case _ => 6)
            case _ => 5)
          case _ => 4)
        case _ => 3)
      case _ => 2)
    case _ => 1
  }

  /** Two sets of crate calls that behave alike in the first `n` stages. */
  ghost predicate SameFirstStages(a: PngLibs, b: PngLibs, n: nat) {
    && (n >= 1 ==> a.decode32 == b.decode32)
    && (n >= 2 ==> a.newAttributes == b.newAttributes && a.setQuality == b.setQuality)
    && (n >= 3 ==> a.newImage == b.newImage)
    && (n >= 4 ==> a.quantize == b.quantize)
    && (n >= 5 ==> a.remapped == b.remapped)
    && (n >= 6 ==> a.newEncoder == b.newEncoder && a.setPalette == b.setPalette)
    && (n >= 7 ==> a.encode == b.encode)
  }

  /** No stage after the first failing one runs: the outcome depends only
      on the stages that ran. */
  lemma LossyStopsAtFirstFailure(a: PngLibs, b: PngLibs, input: seq<Byte>, p: CSParameters)
    requires SameFirstStages(a, b, LossyStagesRun(a, input, p))
    ensures LossyStagesRun(b, input, p) == LossyStagesRun(a, input, p)
    ensures Lossy(b, input, p) == Lossy(a, input, p)
  {
  }

  /** The options of `lossless`, as the code builds them: start from the
      defaults, strip the safe-to-remove chunks unless metadata is kept,
      then either switch the deflater to Zopfli with 15 iterations, or
      replace the whole options with preset 3 and Libdeflater level 6. */
  function LosslessOptions(libs: PngLibs, p: CSParameters): (o: OxipngOptions)
    ensures o.deflate.Zopfli? <==> p.optimize && p.png.forceZopfli
    ensures o.deflate.Zopfli? ==> o.deflate.iterations == 15
    ensures o.deflate.Libdeflater? ==> o.deflate.compression == 6
  {
    var defaults := libs.defaultOptions;
    var stripped := if !p.keepMetadata then defaults.(strip := StripSafe) else defaults;
    if p.optimize && p.png.forceZopfli then stripped.(deflate := Zopfli(15))
    else libs.fromPreset(3).(deflate := Libdeflater(6))
  }

  /** `lossless`'s option building, assignment by assignment. */
  method BuildLosslessOptions(libs: PngLibs, p: CSParameters) returns (options: OxipngOptions)
    ensures options == LosslessOptions(libs, p)
  {
    options := libs.defaultOptions;
    if !p.keepMetadata {
      options := options.(strip := StripSafe);
    }
    if p.optimize && p.png.forceZopfli {
      options := options.(deflate := Zopfli(15));
    } else {
      options := libs.fromPreset(3);
      options := options.(deflate := Libdeflater(6));
    }
  }

  /** With Zopfli, metadata is stripped exactly as asked: the safe chunks go
      unless metadata is kept, and the remaining settings are the
      defaults'. Without Zopfli the strip setting chosen for
      `keep_metadata` is overwritten by the preset: the options, and so the
      output, do not depend on `keep_metadata` at all. */
  lemma StripSettingOnlyWithZopfli(libs: PngLibs, p: CSParameters)
    ensures p.optimize && p.png.forceZopfli ==>
      var o := LosslessOptions(libs, p);
      && o.strip == (if p.keepMetadata then libs.defaultOptions.strip else StripSafe)
      && o.rest == libs.defaultOptions.rest
    ensures !(p.optimize && p.png.forceZopfli) ==>
      && LosslessOptions(libs, p) == LosslessOptions(libs, p.(keepMetadata := !p.keepMetadata))
      && LosslessOptions(libs, p).strip == libs.fromPreset(3).strip
  {
  }

  /** `lossless`: oxipng on the input with those options; its error is
      returned. Without Zopfli the call does not see `keep_metadata`. */
  function Lossless(libs: PngLibs, input: seq<Byte>, p: CSParameters): (r: Result<seq<Byte>>)
    ensures p.optimize && p.png.forceZopfli ==>
      r == libs.optimize(input, (if p.keepMetadata then libs.defaultOptions else libs.defaultOptions.(strip := StripSafe)).(deflate := Zopfli(15)))
    ensures !(p.optimize && p.png.forceZopfli) ==>
      r == libs.optimize(input, libs.fromPreset(3).(deflate := Libdeflater(6)))
  {
    libs.optimize(input, LosslessOptions(libs, p))
  }

  /** `compress_to_memory`: lossless when optimizing, lossy otherwise;
      either's error is returned as it is. */
  function CompressToMemory(libs: PngLibs, input: seq<Byte>, p: CSParameters): (r: Result<seq<Byte>>)
    ensures p.optimize ==>
      && r == libs.optimize(input, LosslessOptions(libs, p))
      && (LosslessOptions(libs, p).deflate.Zopfli? <==> p.png.forceZopfli)
    ensures !p.optimize ==> r == Lossy(libs, input, p)
  {
    if p.optimize then Lossless(libs, input, p) else Lossy(libs, input, p)
  }

  /** Reached through `compress_to_memory`, the lossless branch always has
      `optimize` set, so Zopfli is used exactly when it is forced, and the
      lossy branch never calls the optimiser. */
  lemma BranchSelection(libs: PngLibs, input: seq<Byte>, p: CSParameters)
    ensures p.optimize ==>
      && CompressToMemory(libs, input, p) == libs.optimize(input, LosslessOptions(libs, p))
      && (LosslessOptions(libs, p).deflate.Zopfli? <==> p.png.forceZopfli)
    ensures !p.optimize ==>
      CompressToMemory(libs, input, p) == CompressToMemory(libs.(optimize := (_, _) => Err("")), input, p)
  {
  }

  /** The bytes `compress` stores: the input, or its resize to PNG when a
      size is requested, through `compress_to_memory`. A resize failure is
      returned before any compression. */
  function Output(libs: PngLibs, input: seq<Byte>, p: CSParameters): (r: Result<seq<Byte>>)
    ensures !ResizeRequested(p) ==> r == CompressToMemory(libs, input, p)
    ensures ResizeRequested(p) ==>
      var resized := libs.resize(input, p.width, p.height, PngFormat);
      r == if resized.Ok? then CompressToMemory(libs, resized.value, p) else resized.PropagateFailure()
  {
    if ResizeRequested(p) then
      var resized :- libs.resize(input, p.width, p.height, PngFormat);
      CompressToMemory(libs, resized, p)
    else
      CompressToMemory(libs, input, p)
  }

  /** `compress`: the output buffer is replaced only on success. */
  method Compress(libs: PngLibs, input: seq<Byte>, out: OutBuffer, p: CSParameters) returns (r: Result<()>)
    modifies out
    ensures r == Output(libs, input, p).Forget()
    ensures out.data == if r.Ok? then Output(libs, input, p).value else old(out.data)
  {
    var result := Output(libs, input, p);
    r := result.Forget();
    if result.Ok? {
      out.data := result.value;
    }
  }
}
