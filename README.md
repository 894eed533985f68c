# BatchCompressImage: a Dafny model of the compression core

BatchCompressImage is an Android app. The user picks a folder, and the app converts the
PNG, BMP and WebP images in it to JPEG. It then recompresses every JPEG in place through a
native Rust library, which is an adaptation of libcaesium. This project models the parts
that decide what happens to the bytes:

- the library's entry layer (`lib.rs`): default parameters, copying the host's record into
  them, quality validation, routing by file type, and the result record handed back;
- the JPEG pipeline (`jpeg.rs`): resize with the ICC profile and EXIF carried over, the
  lossless transcode, the lossy re-encode with its two scanline loops, chroma subsampling,
  metadata markers, and the guard that turns a library abort into an error;
- the PNG pipeline (`png.rs`): the lossless optimiser options and the lossy quantisation
  chain;
- the WebP pipeline (`webp.rs`): decode, optional resize, and the choice between lossless
  and lossy encoding;
- the app's header sniffer (`FastImageInfo.kt`): MIME type, width and height read from the
  first bytes of GIF, JPEG, PNG, BMP, WebP and TIFF files;
- the app's per-file routing (`MainActivity.kt`): the extension dispatch, the transparency
  scan, the converted file's name, when the original is deleted, and the parameters of the
  native recompression.

The model has one Dafny module per source unit:

- `Common` holds the `Result` type. Its `Panic` case is a Rust panic that no
  `catch_unwind` stops.
- `Parameters` and `Resize` hold the parameter records.
- The JPEG modules are `JpegSampling`, `JpegMarkers`, `MozJpeg`, `JpegScanlines`,
  `JpegMetadata` and `JpegPipeline`.
- Then come `PngPipeline`, `WebPPipeline`, `Lib`, `FastImageInfo` and `MainActivity`.

The codecs appear only through their calls. mozjpeg, oxipng, imagequant, lodepng, the webp
crate, img_parts, the resize module and the file-type sniffer are function-typed fields of
records (`MozJpeg.Library`, `PngPipeline.PngLibs`, `WebPPipeline.WebPLibs`,
`JpegMetadata.ImgParts`, `Lib.Env`) that every operation takes as a parameter.

Code that changes state stays imperative:

- the component array is an `array` written in place;
- the marker list is a linked list of `MarkerNode` objects;
- the scanline buffer is an array filled row by row;
- the output buffer is an `OutBuffer` object;
- the sniffer is a class whose fields are assigned;
- the folder is a `Folder` object whose map of files changes.

Each of these methods is proved equal to a pure function, and the properties are proved
about those functions.

A JPEG library abort becomes `MozJpeg.Native.ErrorExit(code)`. The slice panic of the lossy
write loop is the separate case `SlicePanic`. The guard reports both as "Internal JPEG
error: " followed by the value of `JPEG_ERROR`. For a slice panic that value is whatever an
earlier abort left there: `Library.staleErrorCode`.

## Model

| member | source | states |
|---|---|---|
| Common.ParseNatToString | app/src/rust_jni/src/jpeg.rs:56 | the decimal text the error message carries parses back to the number |
| JpegSampling.InputComponents | app/src/rust_jni/src/jpeg.rs:168-175 | one component exactly for grayscale, four exactly for CMYK and YCCK, three for every other colour space |
| JpegSampling.ChromaApplied | app/src/rust_jni/src/jpeg.rs:281-306 | components 1 and 2 become 1x1; component 0 takes the mode's factors, or stays unchanged for Auto; entries 3 and up are untouched |
| JpegSampling.SetChromaSubsampling | app/src/rust_jni/src/jpeg.rs:281-306 | the field-by-field writes leave the array equal to `ChromaApplied` of its old contents |
| JpegSampling.LumaFactorsMatchNames | app/src/rust_jni/src/jpeg.rs:287-305 | the factors written for CS444, CS422, CS420 and CS411 are the J:a:b schemes 4:4:4, 4:2:2, 4:2:0 and 4:1:1 |
| JpegSampling.ChromaAppliedConforms | app/src/rust_jni/src/jpeg.rs:281-306 | every factor lies in 1..4, one MCU holds at most 10 blocks (section A.1.1 of ITU-T T.81), and distinct modes give distinct luma factors |
| JpegMarkers.MetadataSaveRequests | app/src/rust_jni/src/jpeg.rs:143-148 | 17 requests: COM first, then APP0..APP15 in order, each with length limit 0xFFFF |
| JpegMarkers.MetadataCodesAreComAndApp | app/src/rust_jni/src/jpeg.rs:143-148 | a code is kept if and only if it is COM or in 0xE0..0xEF; no code is requested twice; every limit is 0xFFFF |
| JpegMarkers.NoMarkersWithoutMetadata | app/src/rust_jni/src/jpeg.rs:143 | without keep_metadata no marker kind is kept |
| JpegMarkers.Decompressor.SaveMetadataMarkers | app/src/rust_jni/src/jpeg.rs:143-148 | the COM call and the APP loop append exactly `MetadataSaveRequests` to the decoder's requests |
| JpegMarkers.WriteMetadata | app/src/rust_jni/src/jpeg.rs:267-279 | the walk to the null link writes every marker of the list once, in list order, after what was written before |
| JpegMarkers.WriteNode | app/src/rust_jni/src/jpeg.rs:271-277 | one turn writes the node's marker after what was written and moves to the successor, whose list is strictly shorter |
| JpegMarkers.MarkersWritten | app/src/rust_jni/src/jpeg.rs:201-203 | the kept markers are written when metadata is kept, and none otherwise |
| MozJpeg.Call.Run | app/src/rust_jni/src/jpeg.rs:308-311 | a returning call returns its value; an aborting call becomes an error exit carrying the library's message code |
| JpegScanlines.DecodedRows | app/src/rust_jni/src/jpeg.rs:157-166 | the decoded buffer holds `stride * n` bytes, and the read loop never slice-panics |
| JpegScanlines.DecodedRowAt | app/src/rust_jni/src/jpeg.rs:161-166 | byte k of row r sits at offset `r * stride + k` and is the byte the decoder produced for that row |
| JpegScanlines.DecodedRowsStopAtAbort | app/src/rust_jni/src/jpeg.rs:161-166 | after the first abort no further row is read: longer runs give the same abort |
| JpegScanlines.DecodedRowsFailIff | app/src/rust_jni/src/jpeg.rs:161-166 | the read loop returns if and only if no scanline read aborts, and its error exit carries the first abort's code |
| JpegScanlines.ReadScanlines | app/src/rust_jni/src/jpeg.rs:157-166 | filling a zeroed buffer row by row gives `DecodedRows` for the image height |
| JpegScanlines.SlicedRows | app/src/rust_jni/src/jpeg.rs:205-209 | row r handed to the encoder is the buffer from `r * stride` on; the rows stop at the first offset past the end |
| JpegScanlines.WriteScanlines | app/src/rust_jni/src/jpeg.rs:205-209 | the write loop produces exactly `SlicedRows` of the buffer |
| JpegScanlines.SlicedRowsCompleteIff | app/src/rust_jni/src/jpeg.rs:205-209 | all rows are handed over if and only if the last row's offset lies within the buffer |
| JpegScanlines.RowsRoundTrip | app/src/rust_jni/src/jpeg.rs:157-209 | written back at the stride it was read with, every row reaches the encoder and begins with the bytes decoded for it |
| JpegScanlines.WiderWriteStridePanics | app/src/rust_jni/src/jpeg.rs:157-209 | with a write stride wider than the read stride and enough rows, the write loop runs off the buffer |
| JpegMetadata.ExtractMetadata | app/src/rust_jni/src/jpeg.rs:228-236 | the ICC profile and EXIF of a parsed image; none of either for an unknown format; a panic from `expect` when parsing fails |
| JpegMetadata.SaveMetadata | app/src/rust_jni/src/jpeg.rs:239-265 | never an error; the resized bytes unchanged when there is nothing to set or when they do not parse or write; otherwise the rewritten image with both chunks replaced |
| JpegMetadata.MetadataSurvivesResize | app/src/rust_jni/src/jpeg.rs:228-265 | if img_parts reads back what it writes, the metadata extracted after saving equals the metadata extracted from the original |
| JpegPipeline.ResizeFormat | app/src/rust_jni/src/jpeg.rs:38-39 | the resize re-encodes as JPEG at the quality cut to a byte |
| JpegPipeline.Prepared | app/src/rust_jni/src/jpeg.rs:35-45 | the input is used as is without a requested size; otherwise it is resized, with the metadata read before and set again after when it is kept; every error and panic case is listed |
| JpegPipeline.PreparedKeepsMetadata | app/src/rust_jni/src/jpeg.rs:35-45 | under a read-back-faithful img_parts, the bytes given to the codec carry the original's ICC profile and EXIF |
| JpegPipeline.Lossless | app/src/rust_jni/src/jpeg.rs:61-122 | returns exactly when the header and coefficients were read and the coefficients were written with optimized coding and the kept markers; the first aborting call's message code is the error exit's code; no slice panic |
| JpegPipeline.LosslessIgnoresJpegSettings | app/src/rust_jni/src/jpeg.rs:61-122 | the transcode does not depend on the JPEG quality or chroma mode |
| JpegPipeline.LossySetup | app/src/rust_jni/src/jpeg.rs:168-197 | the size and colour space are copied, the component count is taken from the table, the chroma mode is applied only for three components and an explicit mode, quality is set without forcing baseline, and optimized coding and ISLOW DCT are on |
| JpegPipeline.ChromaModeReachesEncoder | app/src/rust_jni/src/jpeg.rs:168-188 | the explicit mode's luma factors reach component 0 with 1x1 chroma; grayscale, CMYK and YCCK keep the library defaults |
| JpegPipeline.LossyEncodesDecodedRows | app/src/rust_jni/src/jpeg.rs:124-226 | when the input and output component counts agree, the encoder receives every row and each begins with its decoded bytes |
| JpegPipeline.Lossy | app/src/rust_jni/src/jpeg.rs:124-226 | an abort of the header read or of the decompressor start is the error exit with its code; a failing scanline read is returned as is; after a full read the encoder's abort is the error exit, a complete write loop returns the encoder's bytes, and an incomplete one is a slice panic |
| JpegPipeline.LossyPanicsOnlyOnWiderStride | app/src/rust_jni/src/jpeg.rs:152-209 | a slice panic implies at least two rows and more input components than output components |
| JpegPipeline.JpegErrorText | app/src/rust_jni/src/jpeg.rs:56 | the message starts with "Internal JPEG error: " |
| JpegPipeline.Guard | app/src/rust_jni/src/jpeg.rs:47-58 | a return is kept; an abort becomes the message with its code; a slice panic becomes the message with the stale code; nothing escapes as a panic |
| JpegPipeline.GuardReportsCode | app/src/rust_jni/src/jpeg.rs:47-58 | the code after the prefix is all digits and parses back to the aborting message code |
| JpegPipeline.CompressToMemory | app/src/rust_jni/src/jpeg.rs:33-59 | a preparation failure is returned as is; otherwise the guarded transcode runs when optimizing, and the guarded re-encode otherwise |
| JpegPipeline.CompressToMemoryOutcomes | app/src/rust_jni/src/jpeg.rs:33-59 | only the resize step can panic out; every other error is a guard message |
| JpegPipeline.LosslessAbortReportsItsCode | app/src/rust_jni/src/jpeg.rs:33-122 | when optimizing, the first failing transcode call's abort code comes back as "Internal JPEG error: " and that code |
| JpegPipeline.LossyAbortReportsItsCode | app/src/rust_jni/src/jpeg.rs:33-226 | on the lossy path, the first aborting call (header, start, the first failing scanline, the encoder) comes back as "Internal JPEG error: " and its code |
| JpegPipeline.RunLossy | app/src/rust_jni/src/jpeg.rs:124-226 | the imperative lossy path equals `Lossy` |
| JpegPipeline.SetUpEncoder | app/src/rust_jni/src/jpeg.rs:176-197 | the encoder set up through the component array equals `LossySetup` |
| JpegPipeline.EncodeRows | app/src/rust_jni/src/jpeg.rs:199-209 | the write loop's rows go to the encoder, and an incomplete loop is a slice panic |
| JpegPipeline.Compress | app/src/rust_jni/src/jpeg.rs:24-31 | the output buffer is replaced by the result only on success |
| PngPipeline.Lossy | app/src/rust_jni/src/png.rs:37-80 | a decode error is returned as is; then each stage in turn (quality range (0, quality as u8), image, quantisation, remap, palette) ends the call with its own error, and when all succeed the result is the encoder's output for the remapped pixels and palette at the decoded size |
| PngPipeline.LossyStopsAtFirstFailure | app/src/rust_jni/src/png.rs:37-80 | the outcome depends only on the stages up to the first failing one |
| PngPipeline.Lossless | app/src/rust_jni/src/png.rs:82-104 | oxipng runs with the default options and Zopfli at 15 iterations, stripping safe chunks unless metadata is kept, when Zopfli is forced; otherwise with preset 3 and Libdeflater level 6 |
| PngPipeline.LosslessOptions | app/src/rust_jni/src/png.rs:84-96 | Zopfli with 15 iterations exactly when optimize and force_zopfli are both set; otherwise Libdeflater level 6 |
| PngPipeline.BuildLosslessOptions | app/src/rust_jni/src/png.rs:84-96 | the step-by-step option updates give `LosslessOptions` |
| PngPipeline.StripSettingOnlyWithZopfli | app/src/rust_jni/src/png.rs:84-96 | with Zopfli the safe chunks are stripped unless metadata is kept; without it the preset overwrites the strip setting, so keep_metadata has no effect |
| PngPipeline.BranchSelection | app/src/rust_jni/src/png.rs:26-35 | optimizing calls oxipng, with Zopfli exactly when forced; the lossy branch never calls the optimiser |
| PngPipeline.CompressToMemory | app/src/rust_jni/src/png.rs:26-35 | optimizing gives oxipng's output under `LosslessOptions`, with Zopfli exactly when forced; otherwise the lossy chain's result |
| PngPipeline.Output | app/src/rust_jni/src/png.rs:11-24 | the input, or its resize to PNG when a size is requested, goes to `compress_to_memory`; a resize failure is returned first |
| PngPipeline.Compress | app/src/rust_jni/src/png.rs:11-24 | the output buffer is replaced only on success |
| WebPPipeline.Mode | app/src/rust_jni/src/webp.rs:34-43 | lossless exactly when optimizing without a requested size; lossy at the WebP quality otherwise |
| WebPPipeline.CompressToMemory | app/src/rust_jni/src/webp.rs:16-22 | an undecodable input gives "WebP decode failed!" |
| WebPPipeline.CompressToMemoryStages | app/src/rust_jni/src/webp.rs:16-46 | the resize and encoder failures are returned in order; otherwise the result is the encoder's output in the chosen mode |
| WebPPipeline.NoResizeWithoutSize | app/src/rust_jni/src/webp.rs:24-27 | without a requested size the resize is never called |
| WebPPipeline.Compress | app/src/rust_jni/src/webp.rs:7-14 | the output buffer is replaced only on success |
| Lib.ValidateParameters | app/src/rust_jni/src/lib.rs:178-195 | valid if and only if the JPEG quality is in 1..100 and the PNG and WebP qualities are at most 100; the first bad quality is reported |
| Lib.ValidationComesFirst | app/src/rust_jni/src/lib.rs:154-176 | invalid parameters give the validation error whatever the sniffer and codecs do |
| Lib.EachTypeToItsOwnPipeline | app/src/rust_jni/src/lib.rs:154-176 | each file type goes to its own pipeline only; an unknown type gives "Unknown file type" |
| Lib.Compressed | app/src/rust_jni/src/lib.rs:154-176 | a validation error is returned first; a valid request goes to the JPEG, PNG or WebP pipeline by the sniffed type, and an unknown type gives "Unknown file type" |
| Lib.Compress | app/src/rust_jni/src/lib.rs:154-176 | the outcome and output buffer follow `Compressed`, and the buffer changes only on success |
| Lib.InitializeParameters | app/src/rust_jni/src/lib.rs:82-105 | quality 80 everywhere, Auto chroma, no Zopfli, no metadata, no optimisation, no size |
| Lib.DefaultsAreValid | app/src/rust_jni/src/lib.rs:82-105 | the defaults pass validation and request no resize |
| Lib.ToParameters | app/src/rust_jni/src/lib.rs:136-145 | eight fields are copied from the host record; chroma stays Auto and output_size stays 0 |
| Lib.ChromaRequestIgnored | app/src/rust_jni/src/lib.rs:136-145 | the host's chroma ordinal has no effect, and the lossy encoder keeps the library's default factors |
| Lib.CReturnResult | app/src/rust_jni/src/lib.rs:107-129 | success with an empty message on Ok; failure with the error's text on Err; a panic exactly when that text holds a NUL |
| Lib.ResultReportsOutcome | app/src/rust_jni/src/lib.rs:107-129 | the record reports success exactly on Ok |
| Lib.MyCompress | app/src/rust_jni/src/lib.rs:131-152 | builds the parameters field by field and returns the result record of `compress`, or does not return when it panics |
| FastImageInfo.BigEndianIsReversedLittleEndian | app/src/main/java/com/luis/bci/FastImageInfo.kt:100-109 | the two byte orders of `readInt` differ by reversing the bytes |
| FastImageInfo.LanesStep | app/src/main/java/com/luis/bci/FastImageInfo.kt:104-107 | one iteration ORs the next byte into its lane at the current shift |
| FastImageInfo.EndianBounds | app/src/main/java/com/luis/bci/FastImageInfo.kt:100-109 | an n-byte read is below 2^(8n) |
| FastImageInfo.ReadIntAtSmall | app/src/main/java/com/luis/bci/FastImageInfo.kt:100-109 | a two-byte read is `hi * 256 + lo`, with the bytes in the chosen order |
| FastImageInfo.ByteStream.ReadInt | app/src/main/java/com/luis/bci/FastImageInfo.kt:100-109 | the shift loop consumes n bytes and returns their value in the chosen order, as a 32-bit Int |
| FastImageInfo.SignaturesExclusive | app/src/main/java/com/luis/bci/FastImageInfo.kt:114-120 | no two format signatures match the same leading bytes |
| FastImageInfo.GifDimensions | app/src/main/java/com/luis/bci/FastImageInfo.kt:21-26 | a GIF's width and height are the little-endian values at bytes 6-7 and 8-9 |
| FastImageInfo.PngAndBmpDimensions | app/src/main/java/com/luis/bci/FastImageInfo.kt:28-41 | PNG reads big-endian at bytes 18-19 and 22-23; BMP reads the same offsets little-endian |
| FastImageInfo.WebPDimensions | app/src/main/java/com/luis/bci/FastImageInfo.kt:42-48 | WebP reads little-endian at bytes 26-27 and 28-29, any byte past the end of the file reading as 0; a file of at most 26 bytes gives zeros |
| FastImageInfo.DecodeWebPWidth | app/src/main/java/com/luis/bci/FastImageInfo.kt:111 | the width is the little-endian 16-bit value at bytes 23-24 of the 27 read, below 2^16 |
| FastImageInfo.DecodeWebPHeight | app/src/main/java/com/luis/bci/FastImageInfo.kt:112 | the height is the little-endian 16-bit value at bytes 25-26 of the 27 read, below 2^16 |
| FastImageInfo.Sniff | app/src/main/java/com/luis/bci/FastImageInfo.kt:15-51 | a reported type is one of the six; TIFF comes with both dimensions; a file starting FF D8 that parses is JPEG; fewer than two bytes report nothing with width and height -1 |
| FastImageInfo.JpegFirstSegmentDimensions | app/src/main/java/com/luis/bci/FastImageInfo.kt:53-68 | when the first segment is SOF0..SOF2, the height and then the width follow the length and the precision byte |
| FastImageInfo.JpegWalk | app/src/main/java/com/luis/bci/FastImageInfo.kt:53-68 | the JPEG branch reports image/jpeg whenever it parses; a walk that meets a byte other than 0xFF ends with the size found so far |
| FastImageInfo.EntryAt | app/src/main/java/com/luis/bci/FastImageInfo.kt:78-84 | an IFD entry read moves forward and stays within the data |
| FastImageInfo.TiffEntries | app/src/main/java/com/luis/bci/FastImageInfo.kt:77-90 | the entry walk reports TIFF or nothing, and TIFF only once both width and height are set |
| FastImageInfo.OtherFormats | app/src/main/java/com/luis/bci/FastImageInfo.kt:70-93 | a missing fourth byte or a non-TIFF signature reports no type with the size unchanged; a reported type is TIFF with both dimensions set |
| FastImageInfo.TiffFormat | app/src/main/java/com/luis/bci/FastImageInfo.kt:74-90 | after the byte-order mark, a reported type is TIFF with both dimensions set |
| FastImageInfo.ReadEntry | app/src/main/java/com/luis/bci/FastImageInfo.kt:78-84 | reads the tag and value of one entry as `EntryAt` describes |
| FastImageInfo.IfdEntryAt | app/src/main/java/com/luis/bci/FastImageInfo.kt:78-84 | the corrected entry read: 12 bytes per entry, the tag first, as section 2 of the TIFF 6.0 specification lays it out |
| FastImageInfo.IfdEntries | app/src/main/java/com/luis/bci/FastImageInfo.kt:77-90 | the corrected entry walk reports TIFF or nothing, and TIFF only once both dimensions are set |
| FastImageInfo.IfdWidthThenLength | app/src/main/java/com/luis/bci/FastImageInfo.kt:77-90 | an IFD whose first two entries are ImageWidth and ImageLength makes the corrected walk report TIFF with their values: always for SHORT values, and for LONG values other than -1 |
| FastImageInfo.MinimalTiffAsWritten | app/src/main/java/com/luis/bci/FastImageInfo.kt:77-90 | on a big-endian TIFF with a 16 by 32 IFD, the 8-byte walk reads width 0 and no height, so no type is reported |
| FastImageInfo.MinimalTiffCorrected | app/src/main/java/com/luis/bci/FastImageInfo.kt:77-90 | on the same file, the 12-byte walk reports TIFF, 16 by 32 |
| FastImageInfo.FastImageInfo.constructor | app/src/main/java/com/luis/bci/FastImageInfo.kt:6-8 | width and height start at -1 and the MIME type is unset |
| FastImageInfo.FastImageInfo.ProcessStream | app/src/main/java/com/luis/bci/FastImageInfo.kt:15-51 | the fields end equal to `Sniff` of the bytes, and the call throws exactly when no MIME type was found |
| FastImageInfo.FastImageInfo.ReadGif | app/src/main/java/com/luis/bci/FastImageInfo.kt:22-25 | skipping 3 bytes and two little-endian reads give the fields `GifInfo` describes |
| FastImageInfo.FastImageInfo.ReadFixed | app/src/main/java/com/luis/bci/FastImageInfo.kt:29-40 | the PNG and BMP reads (skip 15, width, skip 2, height) give the fields `FixedDimensions` describes, in the chosen byte order |
| FastImageInfo.FastImageInfo.ReadWebP | app/src/main/java/com/luis/bci/FastImageInfo.kt:43-47 | reading 27 bytes into a zeroed array and decoding them gives the fields `WebPInfo` describes, a short file included |
| FastImageInfo.FastImageInfo.HandleJpg | app/src/main/java/com/luis/bci/FastImageInfo.kt:53-68 | the marker loop's result and fields equal `JpegWalk` |
| FastImageInfo.FastImageInfo.JpegSegment | app/src/main/java/com/luis/bci/FastImageInfo.kt:56-65 | one turn of the marker loop: a SOF0..SOF2 marker ends the walk with the frame size; any other segment is skipped and the walk goes on from the next byte |
| FastImageInfo.FastImageInfo.ReadFrameSize | app/src/main/java/com/luis/bci/FastImageInfo.kt:59-61 | after the precision byte, the height and then the width are read big-endian |
| FastImageInfo.FastImageInfo.HandleOtherFormats | app/src/main/java/com/luis/bci/FastImageInfo.kt:70-93 | the TIFF header read and the entry walk equal `OtherFormats` |
| FastImageInfo.FastImageInfo.HandleTiff | app/src/main/java/com/luis/bci/FastImageInfo.kt:74-90 | the header read and the entry walk after the byte-order mark equal `TiffFormat` |
| FastImageInfo.FastImageInfo.ReadTiffHeader | app/src/main/java/com/luis/bci/FastImageInfo.kt:74-76 | the IFD offset is read, the stream skips to the IFD, and the entry count is read there |
| FastImageInfo.FastImageInfo.WalkEntries | app/src/main/java/com/luis/bci/FastImageInfo.kt:77-90 | the entry loop equals `TiffEntries` and returns as soon as both dimensions are set |
| FastImageInfo.FromBytes | app/src/main/java/com/luis/bci/FastImageInfo.kt:11-12 | the byte-array constructor fails with "Unsupported image type" exactly when the sniff finds no MIME type; otherwise its fields are the sniffed ones |
| MainActivity.PngIsTransparent | app/src/main/java/com/luis/bci/MainActivity.kt:82-91 | true if and only if some pixel's alpha byte is not 0xff |
| MainActivity.LastDot | app/src/main/java/com/luis/bci/MainActivity.kt:97 | the position of the last dot, with no dot after it; none exactly when there is no dot |
| MainActivity.Extension | app/src/main/java/com/luis/bci/MainActivity.kt:97 | the extension holds no dot, and it is empty for a name without a dot |
| MainActivity.SplitAtLastDot | app/src/main/java/com/luis/bci/MainActivity.kt:97 | for `stem.ext` with no dot in ext, the extension is ext lowercased and the stem is stem |
| MainActivity.RemoveSuffix | app/src/main/java/com/luis/bci/MainActivity.kt:125 | the name is unchanged or loses exactly the suffix |
| MainActivity.ConvertedNameAsWritten | app/src/main/java/com/luis/bci/MainActivity.kt:125 | the code's new name: ends with ".jpg" after either the whole name or the name without ".ext" |
| MainActivity.ConvertedName | app/src/main/java/com/luis/bci/MainActivity.kt:125 | the intended new name: a prefix of the name followed by ".jpg" |
| MainActivity.ConvertedNameReplacesExtension | app/src/main/java/com/luis/bci/MainActivity.kt:125 | the intended name replaces an extension of any case by ".jpg" |
| MainActivity.UppercaseExtensionKept | app/src/main/java/com/luis/bci/MainActivity.kt:125 | "A.PNG" becomes "A.PNG.jpg" as written, and "A.jpg" as intended |
| MainActivity.AsWrittenAgreesOnLowercase | app/src/main/java/com/luis/bci/MainActivity.kt:125 | with a lowercase extension, the code's name and the intended name agree |
| MainActivity.ConvertedNameIsJpg | app/src/main/java/com/luis/bci/MainActivity.kt:100-125 | a converted name has extension "jpg", so it never equals the png, bmp or webp name it replaces |
| MainActivity.AsWrittenNameIsJpg | app/src/main/java/com/luis/bci/MainActivity.kt:100-125 | the code's converted name has extension "jpg", so it never equals the png, bmp or webp name it replaces |
| MainActivity.RouteOf | app/src/main/java/com/luis/bci/MainActivity.kt:96-103 | png, bmp and webp go to the conversion; jpg and jpeg go to recompression; nameless files and other extensions are skipped |
| MainActivity.RouteIgnoresCase | app/src/main/java/com/luis/bci/MainActivity.kt:97-125 | routing depends on the extension only up to case, and the name the code gives a converted file is routed as JPEG |
| MainActivity.ImageFileOutcome | app/src/main/java/com/luis/bci/MainActivity.kt:111-133 | nothing changes without conversion; the folder gains at most the code's converted name and loses at most the original |
| MainActivity.ImageFileOutcomeKeepsWhatItMust | app/src/main/java/com/luis/bci/MainActivity.kt:111-133 | with the name the code computes: the original is deleted exactly when it was converted and the encoder succeeded; the new file holds the encoder's bytes; no other file changes |
| MainActivity.ProcessImageFile | app/src/main/java/com/luis/bci/MainActivity.kt:111-133 | a decoded image is converted, under the name the code computes, unless it is a PNG with a transparent pixel; the folder ends as `ImageFileOutcome` says |
| MainActivity.CreateConvertedJpeg | app/src/main/java/com/luis/bci/MainActivity.kt:124-133 | creates the JPEG file under the name the code computes, fills it, and deletes the original only when the encoder succeeded |
| MainActivity.IntAsU32 | app/src/rust_jni/src/lib.rs:250-262 | the host's Int is read as its 32-bit unsigned pattern: non-negative values are kept, negative ones gain 2^32 |
| MainActivity.RecompressParameters | app/src/main/java/com/luis/bci/MainActivity.kt:146-147 | metadata kept, every quality 82, Auto chroma, no Zopfli, optimisation on, and the sniffed size |
| MainActivity.RecompressionIsLosslessAtOwnSize | app/src/main/java/com/luis/bci/MainActivity.kt:146-148 | the parameters pass validation, the JPEG pipeline takes the lossless transcode, and a resize to the sniffed size is requested whenever a size was found (-1 becomes 2^32-1) |
| MainActivity.JpgFileOutcomeTouchesOnlyItsFile | app/src/main/java/com/luis/bci/MainActivity.kt:135-157 | recompression keeps the folder's names and changes only its own file, and only to bytes the native call returned |
| MainActivity.JpgFileOutcome | app/src/main/java/com/luis/bci/MainActivity.kt:135-157 | the folder keeps its names, other files are unchanged, and a file whose sniff finds no type is left alone |
| MainActivity.ProcessJpgFile | app/src/main/java/com/luis/bci/MainActivity.kt:135-157 | the file is overwritten with the native result only when the sniff succeeds and the call returns bytes |
| MainActivity.ProcessFile | app/src/main/java/com/luis/bci/MainActivity.kt:96-106 | a skipped file changes nothing; a JPEG gets `JpgFileOutcome`; a png, bmp or webp file gets `ImageFileOutcome` with its own lowercased extension |

## Left out

- The JNI entry point (`lib.rs`, `Java_com_luis_bci_CaesiumNative_compressPic`) is not
  part of this model. That covers its reflection-based field reads and logger set-up. Of
  it, only the `as u32` reading of Int fields is modelled (`IntAsU32`). The native call
  that `MainActivity.ProcessJpgFile` makes is a parameter `native`.
- Codec internals are not part of this model: mozjpeg, oxipng, imagequant, lodepng, the
  webp crate, img_parts, the resize module and the file-type sniffer (`utils.rs`, over the
  `infer` crate). Each is a function supplied by the caller.
- Only the effect of `catch_unwind` and `static mut JPEG_ERROR` is modelled: an abort
  carries its code, and a slice panic reports `Library.staleErrorCode`. Unwinding and the
  data race on the global under concurrent calls are not modelled.
- `free`, `from_raw_parts`, and the `mem::forget` leaks in `c_return_result` are left out:
  they are raw memory handling.
- The WebP encoder's `f32` quality and imagequant's gamma 0.0 are left out. Quality is
  passed through as an integer; gamma is not modelled.
- The mozjpeg call sequence is reduced to the calls that decide the output. The teardown
  calls (`jpeg_finish_decompress`, `jpeg_destroy_*`) and `jpeg_mem_dest` are not modelled
  separately. In the lossy path, `compress` stands for start, markers, rows and finish; in
  the lossless path, `writeCoefficients` does the same.
- `output_size` is never read by the code, and the model does not read it either.
- JpegScanlines.DecodedRows, JpegScanlines.SlicedRows: take `usize` as 64 bits, so the
  buffer size `width * components * height` and each row offset (jpeg.rs:157-158, 162, 190,
  206) are exact. On a 32-bit Android ABI these products wrap for an image of about 1.43
  gigapixels or more. The model does not capture the short buffer, the slice panic or the
  out-of-bounds write that would follow.
- FastImageInfo.ByteStream.ReadInt: requires its bytes to be present (`n <= 4`). A read
  past the end, which would assemble its value from -1s, is the `Truncated` outcome of
  `Sniff`, and the methods require it away.
- FastImageInfo.DecodeWebPWidth: reads 16 bits at the VP8 frame-size offset. That includes
  the two scale bits of section 9.1 of RFC 6386. The model reproduces this and does not
  check it against the VP8L and VP8X layouts.
- The `File` and `InputStream` constructors of `FastImageInfo` and `toString` are left
  out. Only the byte-array constructor (`FromBytes`) is modelled.
- MainActivity.Extension: lowercases ASCII letters only. Kotlin's `lowercase()` also maps
  other Unicode letters.
- MainActivity parts left out:
  - permissions, intents, dialogs, toasts and logging;
  - the coroutine fan-out of `processFiles`, which runs files concurrently; the model
    processes one file (`ProcessFile`);
  - content-resolver and file-channel I/O.
- Android's bitmap decoder and JPEG encoder are parameters. `bitmap` is the decode, and
  `encoded` is the result of `bitmap.compress`.
- MainActivity.CreateConvertedJpeg: models neither `createFile` renaming a name that is
  already taken nor the partial bytes a failing encoder may leave. The new file is empty
  then.
- MainActivity.ProcessJpgFile: requires the sniff not to run past the end of the file. I/O
  exceptions, which the code catches and logs, are not modelled.

## Findings

The operations of the model follow the code as written. Each corrected member is proved
beside its as-written counterpart.

| source | as written | input that shows it | evidently intended | confidence | as-written member | corrected member |
|---|---|---|---|---|---|---|
| app/src/main/java/com/luis/bci/MainActivity.kt:125 | the lowercased extension is removed from the name with a case-sensitive `removeSuffix` | a file named "A.PNG" is converted to "A.PNG.jpg" | the extension, in any case, replaced by ".jpg": "A.jpg" | medium; not executed | MainActivity.ConvertedNameAsWritten | MainActivity.ConvertedName |
| app/src/main/java/com/luis/bci/FastImageInfo.kt:78-84 | each IFD entry is read as 8 bytes: tag, type, and a 2-byte value skipping 2 bytes, or a 4-byte value; the 4-byte count field is read as the value | a big-endian TIFF whose IFD holds ImageWidth 16 and ImageLength 32 as SHORT entries reports no type, with width 0 | 12-byte entries as in section 2 of the TIFF 6.0 specification: the value after the 4-byte count, giving TIFF 16 by 32 | high; not executed | FastImageInfo.MinimalTiffAsWritten | FastImageInfo.IfdEntries |
