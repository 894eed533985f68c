/** The JPEG pipeline (jpeg.rs): an optional resize that carries the
    metadata over, then a lossless transcode (optimize) or a lossy
    re-encode, run under a guard that turns a library abort into an error
    carrying the library's message code. */
module JpegPipeline {
  import opened Common
  import opened Parameters
  import opened Resize
  import opened JpegSampling
  import opened JpegMarkers
  import opened MozJpeg
  import opened JpegScanlines
  import opened JpegMetadata

  /** Everything the JPEG pipeline calls and does not define. */
  datatype Libs = Libs(mozjpeg: Library, parts: ImgParts, resize: ResizeFn)

  /** The format the resize re-encodes into: JPEG at the quality cut to a
      byte (`quality as u8`). */
  function ResizeFormat(p: CSParameters): (f: OutputFormat)
    ensures f.JpegFormat? && (p.jpeg.quality < 256 ==> f.quality == p.jpeg.quality)
  {
    JpegFormat(AsU8(p.jpeg.quality))
  }

  /** The bytes the codec gets: the input, or the resized image, with the
      original's ICC profile and EXIF set on it again when metadata is kept.
      The metadata is read before the resize runs. */
  function Prepared(libs: Libs, input: seq<Byte>, p: CSParameters): (r: Result<seq<Byte>>)
    ensures !ResizeRequested(p) ==> r == Ok(input)
    ensures ResizeRequested(p) && !p.keepMetadata ==> r == libs.resize(input, p.width, p.height, ResizeFormat(p))
    ensures ResizeRequested(p) && p.keepMetadata ==>
      match ExtractMetadata(libs.parts, input)
      case Ok(m) =>
        (match libs.resize(input, p.width, p.height, ResizeFormat(p))
         case Ok(resized) => r == SaveMetadata(libs.parts, resized, m)
         case Err(e) => r == Err(e)
         case Panic(msg) => r == Panic(msg))
      case _ => r.Panic?
  {
    if ResizeRequested(p) then
      if p.keepMetadata then
        var metadata :- ExtractMetadata(libs.parts, input);
        var resized :- libs.resize(input, p.width, p.height, ResizeFormat(p));
        SaveMetadata(libs.parts, resized, metadata)
      else
        libs.resize(input, p.width, p.height, ResizeFormat(p))
    else
      Ok(input)
  }

  /** With metadata kept, a successful resize, and an img_parts that reads
      back what it writes, the bytes handed to the codec carry the ICC
      profile and EXIF of the original. */
  lemma PreparedKeepsMetadata(libs: Libs, input: seq<Byte>, p: CSParameters)
    requires ResizeRequested(p) && p.keepMetadata
    requires ReadsBackWhatItWrites(libs.parts)
    requires ExtractMetadata(libs.parts, input).Ok?
    requires ExtractMetadata(libs.parts, input).value != Metadata(None, None)
    requires libs.resize(input, p.width, p.height, ResizeFormat(p)).Ok?
    requires var resized := libs.resize(input, p.width, p.height, ResizeFormat(p)).value;
      var m := ExtractMetadata(libs.parts, input).value;
      && libs.parts.fromBytes(resized).Ok? && libs.parts.fromBytes(resized).value.Some?
      && libs.parts.write(libs.parts.fromBytes(resized).value.value.(icc := m.icc, exif := m.exif)).Ok?
    ensures Prepared(libs, input, p).Ok?
    ensures ExtractMetadata(libs.parts, Prepared(libs, input, p).value) == ExtractMetadata(libs.parts, input)
  {
    var resized := libs.resize(input, p.width, p.height, ResizeFormat(p)).value;
    MetadataSurvivesResize(libs.parts, input, resized);
  }

  /** `lossless`: read the DCT coefficients and write them out again with
      optimized Huffman tables, plus the kept markers when metadata is kept.
      The first call that aborts ends the transcode with its message code;
      when none does, the written bytes are returned. */
  function Lossless(lib: Library, input: seq<Byte>, p: CSParameters): (r: Native<seq<Byte>>)
    ensures !r.SlicePanic?
    ensures r.Returned? ==>
      && lib.readHeader(input, SaveRequestsFor(p.keepMetadata)).Done?
      && var header := lib.readHeader(input, SaveRequestsFor(p.keepMetadata)).value;
      && lib.readCoefficients(input, header).Done?
      && var coefficients := lib.readCoefficients(input, header).value;
      lib.writeCoefficients(header, coefficients, MarkersWritten(p.keepMetadata, header.markers), true) == Done(r.value)
    ensures var read := lib.readHeader(input, SaveRequestsFor(p.keepMetadata));
      && (read.Abort? ==> r == ErrorExit(read.msgCode))
      && (read.Done? ==>
            var coefficients := lib.readCoefficients(input, read.value);
            && (coefficients.Abort? ==> r == ErrorExit(coefficients.msgCode))
            && (coefficients.Done? ==>
                  var written := lib.writeCoefficients(read.value, coefficients.value,
                                                      MarkersWritten(p.keepMetadata, read.value.markers), true);
                  && (written.Abort? ==> r == ErrorExit(written.msgCode))
                  && (written.Done? ==> r == Returned(written.value))))
  {
    var header :- lib.readHeader(input, SaveRequestsFor(p.keepMetadata)).Run();
    var coefficients :- lib.readCoefficients(input, header).Run();
    lib.writeCoefficients(header, coefficients, MarkersWritten(p.keepMetadata, header.markers), true).Run()
  }

  /** The transcode ignores the JPEG quality and chroma settings. */
  lemma LosslessIgnoresJpegSettings(lib: Library, input: seq<Byte>, p: CSParameters, jpeg: JpegParameters)
    ensures Lossless(lib, input, p) == Lossless(lib, input, p.(jpeg := jpeg))
  {
  }

  /** Whether the chroma mode is written into the component array: only
      for three-component input and an explicit mode. */
  predicate SubsamplingApplies(cs: ColorSpace, mode: ChromaSubsampling) {
    InputComponents(cs) == 3 && mode != Auto
  }

  /** The encoder settings of `lossy`. */
  function LossySetup(lib: Library, header: Header, p: CSParameters): (s: Setup)
    ensures s.width == header.width && s.height == header.height && s.inColorSpace == header.colorSpace
    ensures s.inputComponents == InputComponents(header.colorSpace)
    ensures SubsamplingApplies(header.colorSpace, p.jpeg.chromaSubsampling) ==>
      s.compInfo == ChromaApplied(p.jpeg.chromaSubsampling, lib.setDefaults(header.colorSpace, s.inputComponents))
    ensures !SubsamplingApplies(header.colorSpace, p.jpeg.chromaSubsampling) ==>
      s.compInfo == lib.setDefaults(header.colorSpace, s.inputComponents)
    ensures p.jpeg.quality <= 100 ==> s.quality == p.jpeg.quality
    ensures !s.forceBaseline && s.optimizeCoding && s.dctIslow
  {
    var components := InputComponents(header.colorSpace);
    var defaults := lib.setDefaults(header.colorSpace, components);
    var compInfo := if SubsamplingApplies(header.colorSpace, p.jpeg.chromaSubsampling)
      then ChromaApplied(p.jpeg.chromaSubsampling, defaults) else defaults;
    Setup(header.width, header.height, header.colorSpace, components, compInfo,
          AsI32(p.jpeg.quality), false, true, true)
  }

  /** For three-component input, the chosen mode's luma factors end up in
      component 0 and both chroma components are 1x1; every other colour
      space keeps the library's defaults, whatever the mode. */
  lemma ChromaModeReachesEncoder(lib: Library, header: Header, p: CSParameters)
    ensures var s := LossySetup(lib, header, p);
      var defaults := lib.setDefaults(header.colorSpace, InputComponents(header.colorSpace));
      && (SubsamplingApplies(header.colorSpace, p.jpeg.chromaSubsampling) ==>
            s.compInfo[0] == LumaFactors(p.jpeg.chromaSubsampling)
            && s.compInfo[1] == SampFactors(1, 1) && s.compInfo[2] == SampFactors(1, 1))
      && (header.colorSpace.JcsGrayscale? || header.colorSpace.JcsCmyk? || header.colorSpace.JcsYcck? ==>
            s.compInfo == defaults)
  {
  }

  /** `lossy`: decode every row into one buffer at the decoder's row
      stride, set the encoder up, and hand it the rows at the encoder's row
      stride. The write loop slices the buffer at each row's offset first;
      a row starting past the end panics, unless the encoder aborted on an
      earlier row. Each decoder call that aborts ends the re-encode with its
      message code, the read loop with the code of its first failing row. */
  function Lossy(lib: Library, input: seq<Byte>, p: CSParameters): (r: Native<seq<Byte>>)
    ensures var read := lib.readHeader(input, SaveRequestsFor(p.keepMetadata));
      && (read.Abort? ==> r == ErrorExit(read.msgCode))
      && (read.Done? ==>
            var started := lib.startDecompress(input, read.value);
            && (started.Abort? ==> r == ErrorExit(started.msgCode))
            && (started.Done? ==>
                  var decoded := DecodedRows(lib, input, read.value, read.value.width * started.value, read.value.height);
                  && (decoded.ErrorExit? ==> r == decoded)
                  && (decoded.Returned? ==> LossyEncodes(lib, read.value, p, decoded.value, r))))
  {
    var header :- lib.readHeader(input, SaveRequestsFor(p.keepMetadata)).Run();
    var outputComponents :- lib.startDecompress(input, header).Run();
    var buffer :- DecodedRows(lib, input, header, header.width * outputComponents, header.height);
    var setup := LossySetup(lib, header, p);
    var rows := SlicedRows(buffer, header.width * setup.inputComponents, header.height);
    var written := lib.compress(setup, MarkersWritten(p.keepMetadata, header.markers), rows);
    if written.Done? && |rows| < header.height then SlicePanic else written.Run()
  }

  /** What the encoder stage of `lossy` gives for a decoded buffer: an
      abort carries its code; otherwise the bytes when every row was handed
      over, and a slice panic when the write loop stopped short. */
  predicate LossyEncodes(lib: Library, header: Header, p: CSParameters, buffer: seq<Byte>, r: Native<seq<Byte>>) {
    var rows := SlicedRows(buffer, header.width * InputComponents(header.colorSpace), header.height);
    var written := EncoderCall(lib, header, p, buffer);
    && (written.Abort? ==> r == ErrorExit(written.msgCode))
    && (written.Done? && |rows| == header.height ==> r == Returned(written.value))
    && (written.Done? && |rows| < header.height ==> r == SlicePanic)
  }

  /** The encoder call of `lossy`: the set-up encoder, the markers to
      write, and the decoded buffer sliced at the encoder's row stride. */
  function EncoderCall(lib: Library, header: Header, p: CSParameters, buffer: seq<Byte>): Call<seq<Byte>> {
    lib.compress(LossySetup(lib, header, p), MarkersWritten(p.keepMetadata, header.markers),
                 SlicedRows(buffer, header.width * InputComponents(header.colorSpace), header.height))
  }

  /** When the encoder takes as many components per pixel as the decoder
      gives (every colour space but the unknown one), the encoder receives
      every row, and each row begins with the bytes the decoder produced
      for it. */
  lemma LossyEncodesDecodedRows(lib: Library, input: seq<Byte>, p: CSParameters)
    requires lib.readHeader(input, SaveRequestsFor(p.keepMetadata)).Done?
    requires var header := lib.readHeader(input, SaveRequestsFor(p.keepMetadata)).value;
      && lib.startDecompress(input, header) == Done(InputComponents(header.colorSpace))
      && DecodedRows(lib, input, header, header.width * InputComponents(header.colorSpace), header.height).Returned?
    ensures var header := lib.readHeader(input, SaveRequestsFor(p.keepMetadata)).value;
      var stride := header.width * InputComponents(header.colorSpace);
      var rows := SlicedRows(DecodedRows(lib, input, header, stride, header.height).value, stride, header.height);
      && |rows| == header.height
      && Lossy(lib, input, p) == lib.compress(LossySetup(lib, header, p), MarkersWritten(p.keepMetadata, header.markers), rows).Run()
      && forall r :: 0 <= r < header.height ==>
           && lib.readScanline(input, header, r).Done?
           && |rows[r]| >= stride
           && rows[r][..stride] == RowBytes(lib.readScanline(input, header, r).value, stride)
  {
    var header := lib.readHeader(input, SaveRequestsFor(p.keepMetadata)).value;
    var stride := header.width * InputComponents(header.colorSpace);
    AllRowsHandedOver(lib, input, header, stride);
    LossyWithAllRows(lib, input, p);
    var rows := SlicedRows(DecodedRows(lib, input, header, stride, header.height).value, stride, header.height);
    forall r | 0 <= r < header.height
      ensures && lib.readScanline(input, header, r).Done?
              && |rows[r]| >= stride
              && rows[r][..stride] == RowBytes(lib.readScanline(input, header, r).value, stride)
    {
      RowsRoundTrip(lib, input, header, stride, r);
    }
  }

  /** When every decoder step returns and the write loop hands over every
      row, `Lossy` is the encoder's outcome on those rows. */
  lemma LossyWithAllRows(lib: Library, input: seq<Byte>, p: CSParameters)
    requires lib.readHeader(input, SaveRequestsFor(p.keepMetadata)).Done?
    requires var header := lib.readHeader(input, SaveRequestsFor(p.keepMetadata)).value;
      && lib.startDecompress(input, header).Done?
      && var readStride := header.width * lib.startDecompress(input, header).value;
      && DecodedRows(lib, input, header, readStride, header.height).Returned?
      && var buffer := DecodedRows(lib, input, header, readStride, header.height).value;
      && |SlicedRows(buffer, header.width * InputComponents(header.colorSpace), header.height)| == header.height
    ensures var header := lib.readHeader(input, SaveRequestsFor(p.keepMetadata)).value;
      var readStride := header.width * lib.startDecompress(input, header).value;
      var buffer := DecodedRows(lib, input, header, readStride, header.height).value;
      var rows := SlicedRows(buffer, header.width * InputComponents(header.colorSpace), header.height);
      Lossy(lib, input, p) == lib.compress(LossySetup(lib, header, p), MarkersWritten(p.keepMetadata, header.markers), rows).Run()
  {
    var header := lib.readHeader(input, SaveRequestsFor(p.keepMetadata)).value;
    assert LossySetup(lib, header, p).inputComponents == InputComponents(header.colorSpace);
  }

  /** The slice panic happens only when the encoder's row stride is wider
      than the decoder's: more input components than output components. */
  lemma LossyPanicsOnlyOnWiderStride(lib: Library, input: seq<Byte>, p: CSParameters)
    requires Lossy(lib, input, p).SlicePanic?
    ensures lib.readHeader(input, SaveRequestsFor(p.keepMetadata)).Done?
    ensures var header := lib.readHeader(input, SaveRequestsFor(p.keepMetadata)).value;
      && lib.startDecompress(input, header).Done?
      && header.height >= 2
      && InputComponents(header.colorSpace) > lib.startDecompress(input, header).value
  {
    LossyPanicShape(lib, input, p);
    var header := lib.readHeader(input, SaveRequestsFor(p.keepMetadata)).value;
    var oc := lib.startDecompress(input, header).value;
    var readStride := header.width * oc;
    var buffer := DecodedRows(lib, input, header, readStride, header.height).value;
    var ic := InputComponents(header.colorSpace);
    var writeStride := header.width * ic;
    SlicedRowsCompleteIff(buffer, writeStride, header.height);
    if ic <= oc {
      assert writeStride <= readStride by {
        MulMonotone(header.width, ic, oc);
      }
      RowStartMonotone(header.height - 1, header.height, readStride);
      RowStartStrideMonotone(header.height - 1, writeStride, readStride);
      assert false;
    }
  }

  /** What a slice panic of `Lossy` implies: every decoder step returned,
      and the write loop stopped short of the image height. */
  lemma LossyPanicShape(lib: Library, input: seq<Byte>, p: CSParameters)
    requires Lossy(lib, input, p).SlicePanic?
    ensures lib.readHeader(input, SaveRequestsFor(p.keepMetadata)).Done?
    ensures var header := lib.readHeader(input, SaveRequestsFor(p.keepMetadata)).value;
      && lib.startDecompress(input, header).Done?
      && var readStride := header.width * lib.startDecompress(input, header).value;
      && DecodedRows(lib, input, header, readStride, header.height).Returned?
      && var buffer := DecodedRows(lib, input, header, readStride, header.height).value;
      && |SlicedRows(buffer, header.width * InputComponents(header.colorSpace), header.height)| < header.height
  {
    var header := lib.readHeader(input, SaveRequestsFor(p.keepMetadata)).value;
    assert LossySetup(lib, header, p).inputComponents == InputComponents(header.colorSpace);
  }

  lemma MulMonotone(w: nat, a: nat, b: nat)
    requires a <= b
    ensures w * a <= w * b
  {
  }

  lemma RowStartStrideMonotone(r: nat, s: nat, t: nat)
    requires s <= t
    ensures RowStart(r, s) <= RowStart(r, t)
  {
  }

  /** The message the guard produces for a library message code. */
  function JpegErrorText(code: int): (text: string)
    ensures |text| > |JpegErrorPrefix| && text[..|JpegErrorPrefix|] == JpegErrorPrefix
  {
    JpegErrorPrefix + IntToString(code)
  }

  const JpegErrorPrefix := "Internal JPEG error: "

  /** `catch_unwind` around the codec: a return is kept, a library abort
      becomes an error naming the code the handler recorded, and a slice
      panic becomes an error naming whatever code an earlier abort left in
      `JPEG_ERROR`. */
  function Guard(run: Native<seq<Byte>>, staleCode: int): (r: Result<seq<Byte>>)
    ensures !r.Panic?
    ensures r.Ok? <==> run.Returned?
    ensures run.Returned? ==> r.value == run.value
    ensures run.ErrorExit? ==> r.error == JpegErrorText(run.msgCode)
    ensures run.SlicePanic? ==> r.error == JpegErrorText(staleCode)
  {
    match run
    case Returned(bytes) => Ok(bytes)
    case ErrorExit(code) => Err(JpegErrorText(code))
    case SlicePanic => Err(JpegErrorText(staleCode))
  }

  /** The code a library abort reports can be read back from the message. */
  lemma GuardReportsCode(code: nat, staleCode: int)
    ensures var r := Guard(ErrorExit(code), staleCode);
      && r.Err?
      && (forall k :: |JpegErrorPrefix| <= k < |r.error| ==> '0' <= r.error[k] <= '9')
      && ParseNat(r.error[|JpegErrorPrefix|..]) == code
  {
    var text := JpegErrorText(code);
    assert text[|JpegErrorPrefix|..] == NatToString(code);
    ParseNatToString(code);
  }

  /** `compress_to_memory`: the prepared bytes through the transcode when
      optimizing, through the re-encode otherwise, under the guard. Errors
      and panics of the resize step are not caught. */
  function CompressToMemory(libs: Libs, input: seq<Byte>, p: CSParameters): (r: Result<seq<Byte>>)
    ensures Prepared(libs, input, p).IsFailure() ==> r == Prepared(libs, input, p).PropagateFailure()
    ensures Prepared(libs, input, p).Ok? ==>
      r == Guard(if p.optimize then Lossless(libs.mozjpeg, Prepared(libs, input, p).value, p)
                 else Lossy(libs.mozjpeg, Prepared(libs, input, p).value, p),
                 libs.mozjpeg.staleErrorCode)
  {
    var prepared :- Prepared(libs, input, p);
    Guard(if p.optimize then Lossless(libs.mozjpeg, prepared, p) else Lossy(libs.mozjpeg, prepared, p),
          libs.mozjpeg.staleErrorCode)
  }

  /** A library abort reaches the caller with its own message code: once
      the bytes are prepared, the first call of the transcode that aborts,
      with code `c`, makes `compress_to_memory` return
      "Internal JPEG error: c". */
  lemma LosslessAbortReportsItsCode(libs: Libs, input: seq<Byte>, p: CSParameters)
    requires Prepared(libs, input, p).Ok? && p.optimize
    ensures var lib := libs.mozjpeg;
      var data := Prepared(libs, input, p).value;
      var read := lib.readHeader(data, SaveRequestsFor(p.keepMetadata));
      var out := CompressToMemory(libs, input, p);
      && (read.Abort? ==> out == Err(JpegErrorText(read.msgCode)))
      && (read.Done? ==>
            var coefficients := lib.readCoefficients(data, read.value);
            && (coefficients.Abort? ==> out == Err(JpegErrorText(coefficients.msgCode)))
            && (coefficients.Done? ==>
                  var written := lib.writeCoefficients(read.value, coefficients.value,
                                                      MarkersWritten(p.keepMetadata, read.value.markers), true);
                  written.Abort? ==> out == Err(JpegErrorText(written.msgCode))))
  {
    var lib := libs.mozjpeg;
    assert CompressToMemory(libs, input, p) == Guard(Lossless(lib, Prepared(libs, input, p).value, p), lib.staleErrorCode);
  }

  /** The same for the re-encode: the header read, the decoder start, the
      first row whose read aborts, and the encoder, in that order; the code
      of the first of them that aborts is the one reported. */
  lemma LossyAbortReportsItsCode(libs: Libs, input: seq<Byte>, p: CSParameters)
    requires Prepared(libs, input, p).Ok? && !p.optimize
    ensures var lib := libs.mozjpeg;
      var data := Prepared(libs, input, p).value;
      var read := lib.readHeader(data, SaveRequestsFor(p.keepMetadata));
      var out := CompressToMemory(libs, input, p);
      && (read.Abort? ==> out == Err(JpegErrorText(read.msgCode)))
      && (read.Done? ==>
            var started := lib.startDecompress(data, read.value);
            && (started.Abort? ==> out == Err(JpegErrorText(started.msgCode)))
            && (started.Done? ==>
                  var first := FirstScanlineAbort(lib, data, read.value, 0);
                  var decoded := DecodedRows(lib, data, read.value, read.value.width * started.value, read.value.height);
                  && (first.Some? ==> out == Err(JpegErrorText(first.value)))
                  && (first.None? ==> decoded.Returned?)
                  && (decoded.Returned? ==>
                        var written := EncoderCall(lib, read.value, p, decoded.value);
                        written.Abort? ==> out == Err(JpegErrorText(written.msgCode)))))
  {
    var lib := libs.mozjpeg;
    var data := Prepared(libs, input, p).value;
    var read := lib.readHeader(data, SaveRequestsFor(p.keepMetadata));
    assert CompressToMemory(libs, input, p) == Guard(Lossy(lib, data, p), lib.staleErrorCode);
    if read.Done? && lib.startDecompress(data, read.value).Done? {
      var stride := read.value.width * lib.startDecompress(data, read.value).value;
      DecodedRowsFailIff(lib, data, read.value, stride);
    }
  }

  /** Nothing but the resize step can panic out of the JPEG pipeline; an
      error either comes from the resize step or is the guard's message. */
  lemma CompressToMemoryOutcomes(libs: Libs, input: seq<Byte>, p: CSParameters)
    ensures var r := CompressToMemory(libs, input, p);
      && (r.Panic? ==> Prepared(libs, input, p).Panic?)
      && (r.Err? ==> Prepared(libs, input, p).Err? || (|r.error| > |JpegErrorPrefix| && r.error[..|JpegErrorPrefix|] == JpegErrorPrefix))
  {
  }

  /** `lossy` as it runs: the marker requests, the read loop into a zeroed
      buffer, the component array set up in place, the write loop, and the
      encoder. */
  method RunLossy(lib: Library, input: seq<Byte>, p: CSParameters) returns (r: Native<seq<Byte>>)
    ensures r == Lossy(lib, input, p)
  {
    var src := new Decompressor();
    if p.keepMetadata {
      src.SaveMetadataMarkers();
    }
    assert src.saveRequests == SaveRequestsFor(p.keepMetadata);
    var header :- lib.readHeader(input, src.saveRequests).Run();
    var outputComponents :- lib.startDecompress(input, header).Run();
    var decoded :- ReadScanlines(lib, input, header, header.width * outputComponents);
    var setup := SetUpEncoder(lib, header, p);
    r := EncodeRows(lib, setup, MarkersWritten(p.keepMetadata, header.markers), decoded);
  }

  /** The encoder settings made in place: `jpeg_set_defaults` fills the
      component array, and the chroma mode is written into it when it
      applies. */
  method SetUpEncoder(lib: Library, header: Header, p: CSParameters) returns (setup: Setup)
    ensures setup == LossySetup(lib, header, p)
  {
    var components := InputComponents(header.colorSpace);
    var defaults := lib.setDefaults(header.colorSpace, components);
    var compInfo := new SampFactors[MaxComponents](k requires 0 <= k < MaxComponents => defaults[k]);
    assert compInfo[..] == defaults;
    if components == 3 && p.jpeg.chromaSubsampling != Auto {
      SetChromaSubsampling(p.jpeg.chromaSubsampling, compInfo);
    }
    setup := Setup(header.width, header.height, header.colorSpace, components, compInfo[..],
                   AsI32(p.jpeg.quality), false, true, true);
  }

  /** The write loop over the decoded buffer, then the encoder's verdict:
      a row sliced past the end panics unless the encoder aborted first. */
  method EncodeRows(lib: Library, setup: Setup, markers: seq<Marker>, decoded: seq<Byte>) returns (r: Native<seq<Byte>>)
    ensures var rows := SlicedRows(decoded, setup.width * setup.inputComponents, setup.height);
      var written := lib.compress(setup, markers, rows);
      r == if written.Done? && |rows| < setup.height then SlicePanic else written.Run()
  {
    var buffer := new Byte[|decoded|](k requires 0 <= k < |decoded| => decoded[k]);
    assert buffer[..] == decoded;
    var rows := WriteScanlines(buffer, setup.width * setup.inputComponents, setup.height);
    var written := lib.compress(setup, markers, rows);
    if written.Done? && |rows| < setup.height {
      return SlicePanic;
    }
    return written.Run();
  }

  /** `compress`: the output buffer is replaced only when the pipeline
      succeeds. */
  method Compress(libs: Libs, input: seq<Byte>, out: OutBuffer, p: CSParameters) returns (r: Result<()>)
    modifies out
    ensures r == CompressToMemory(libs, input, p).Forget()
    ensures out.data == if r.Ok? then CompressToMemory(libs, input, p).value else old(out.data)
  {
    var result := CompressToMemory(libs, input, p);
    r := result.Forget();
    if result.Ok? {
      out.data := result.value;
    }
  }
}
