/** The mozjpeg library as the JPEG pipeline sees it. Its internals are not
    part of this model: each library call the pipeline makes is a function
    field of `Library`, supplied by the caller. */
module MozJpeg {
  import opened Common
  import opened JpegSampling
  import opened JpegMarkers

  /** What one library call does: it returns, or it calls `error_exit`
      with a message code. */
  datatype Call<+T> = Done(value: T) | Abort(msgCode: int) {

    /** The call as part of the code run under `catch_unwind`. */
    function Run(): (r: Native<T>)
      ensures r.Returned? == Done? && r.ErrorExit? == Abort?
      ensures Done? ==> r.value == value
      ensures Abort? ==> r.msgCode == msgCode
    {
      if Done? then Returned(value) else ErrorExit(msgCode)
    }
  }

  /** What the code run under `catch_unwind` does: it returns a value, the
      library calls `error_exit` (whose handler records the message code in
      `JPEG_ERROR` and panics), or a Rust slice index panics. `:-` stops at
      the first abort, as the unwinding does. */
  datatype Native<+T> = Returned(value: T) | ErrorExit(msgCode: int) | SlicePanic {

    predicate IsFailure() {
      !Returned?
    }

    function PropagateFailure<U>(): (r: Native<U>)
      requires IsFailure()
      ensures r.ErrorExit? == ErrorExit? && r.SlicePanic? == SlicePanic?
      ensures ErrorExit? ==> r.msgCode == msgCode
    {
      if ErrorExit? then ErrorExit(msgCode) else SlicePanic
    }

    function Extract(): T
      requires Returned?
    {
      value
    }
  }

  /** What `jpeg_read_header` leaves in the decompressor: the image size,
      `jpeg_color_space`, and the kept markers (`marker_list`, in order). */
  datatype Header = Header(
    width: U32,
    height: U32,
    colorSpace: ColorSpace,
    markers: seq<Marker>)

  /** The DCT coefficient arrays `jpeg_read_coefficients` returns. */
  datatype Coefficients = Coefficients(blocks: seq<int>)

  /** The encoder settings the lossy path makes before
      `jpeg_start_compress`. */
  datatype Setup = Setup(
    width: U32,
    height: U32,
    inColorSpace: ColorSpace,
    inputComponents: nat,
    compInfo: CompInfo,
    quality: int,
    forceBaseline: bool,
    optimizeCoding: bool,
    dctIslow: bool)

  /** The library calls. Each takes the input bytes it works on, so that a
      call is a function of what the decompressor has seen.
      - `readHeader(input, requests)`: `jpeg_read_header` after the given
        `jpeg_save_markers` requests;
      - `readCoefficients`: `jpeg_read_coefficients`;
      - `writeCoefficients(critical, coefficients, markers, optimize)`:
        `jpeg_copy_critical_parameters`, `jpeg_write_coefficients`, the
        markers written by `write_metadata`, `jpeg_finish_compress`;
      - `startDecompress`: `jpeg_start_decompress` with the output colour
        space set to the input's, giving `output_components`;
      - `readScanline(input, header, r)`: the bytes `jpeg_read_scanlines`
        stores for output row `r`, by position in the row;
      - `setDefaults(colorSpace, components)`: the `comp_info` array
        `jpeg_set_defaults` fills in;
      - `compress(setup, markers, rows)`: `jpeg_start_compress`, the
        markers, one `jpeg_write_scanlines` per row given in order (each
        row handed over as the buffer from its offset on), then
        `jpeg_finish_compress`; given fewer rows than the height, its
        `Done` means none of those calls aborted;
      - `staleErrorCode`: the value `JPEG_ERROR` holds when the call
        starts, left there by an earlier abort (0 if there was none). */
  datatype Library = Library(
    readHeader: (seq<Byte>, seq<SaveRequest>) -> Call<Header>,
    readCoefficients: (seq<Byte>, Header) -> Call<Coefficients>,
    writeCoefficients: (Header, Coefficients, seq<Marker>, bool) -> Call<seq<Byte>>,
    startDecompress: (seq<Byte>, Header) -> Call<nat>,
    readScanline: (seq<Byte>, Header, nat) -> Call<nat -> Byte>,
    setDefaults: (ColorSpace, nat) -> CompInfo,
    compress: (Setup, seq<Marker>, seq<seq<Byte>>) -> Call<seq<Byte>>,
    staleErrorCode: int)
}
