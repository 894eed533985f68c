/** Carrying ICC profile and EXIF across a resize (jpeg.rs): both are read
    from the original bytes before the resize and set on the resized image
    afterwards. The container parser and writer (the img_parts crate) are
    not part of this model; `ImgParts` supplies them. */
module JpegMetadata {
  import opened Common

  /** An image as img_parts holds it: its ICC profile and EXIF chunks, and
      everything else about it. */
  datatype DynImage = DynImage(
    icc: Option<seq<Byte>>,
    exif: Option<seq<Byte>>,
    rest: seq<Byte>)

  /** `DynImage::from_bytes` gives `Err` on a malformed container, `Ok(None)`
      for bytes in no format img_parts knows, `Ok(Some(image))` otherwise;
      `write` is `encoder().write_to` into a fresh vector. */
  datatype ImgParts = ImgParts(
    fromBytes: seq<Byte> -> Result<Option<DynImage>>,
    write: DynImage -> Result<seq<Byte>>)

  /** The pair `extract_metadata` returns: ICC profile, then EXIF. */
  datatype Metadata = Metadata(icc: Option<seq<Byte>>, exif: Option<seq<Byte>>)

  /** `extract_metadata`: the ICC profile and EXIF of the image, none of
      either for bytes in an unknown format, and a panic (from `expect`,
      outside any `catch_unwind`) when the container is malformed. */
  function ExtractMetadata(parts: ImgParts, image: seq<Byte>): (r: Result<Metadata>)
    ensures r.Err? == false
    ensures r.Panic? <==> !parts.fromBytes(image).Ok?
    ensures parts.fromBytes(image) == Ok(None) ==> r == Ok(Metadata(None, None))
    ensures parts.fromBytes(image).Ok? && parts.fromBytes(image).value.Some? ==>
      var d := parts.fromBytes(image).value.value;
      r == Ok(Metadata(d.icc, d.exif))
  {
    match parts.fromBytes(image)
    case Err(e) => Panic("image loaded: " + e)
    case Panic(m) => Panic(m)
    case Ok(None) => Ok(Metadata(None, None))
    case Ok(Some(d)) => Ok(Metadata(d.icc, d.exif))
  }

  /** `save_metadata`: sets both chunks on the resized image, an absent one
      removing what the image had, and returns the rewritten bytes. It
      returns the resized bytes unchanged when there is nothing to set, when
      they do not parse or are in an unknown format, and when writing fails. */
  function SaveMetadata(parts: ImgParts, image: seq<Byte>, metadata: Metadata): (r: Result<seq<Byte>>)
    ensures !r.Err?
    ensures metadata == Metadata(None, None) ==> r == Ok(image)
    ensures metadata != Metadata(None, None) ==>
      match parts.fromBytes(image)
      case Err(_) => r == Ok(image)
      case Ok(None) => r == Ok(image)
      case Panic(m) => r == Panic(m)
      case Ok(Some(d)) =>
        match parts.write(d.(icc := metadata.icc, exif := metadata.exif))
        case Ok(out) => r == Ok(out)
        case Err(_) => r == Ok(image)
        case Panic(m) => r == Panic(m)
  {
    if metadata.icc.Some? || metadata.exif.Some? then
      match parts.fromBytes(image)
      case Err(_) => Ok(image)
      case Panic(m) => Panic(m)
      case Ok(None) => Ok(image)
      case Ok(Some(d)) =>
        match parts.write(d.(icc := metadata.icc, exif := metadata.exif))
        case Ok(out) => Ok(out)
        case Err(_) => Ok(image)
        case Panic(m) => Panic(m)
    else
      Ok(image)
  }

  /** img_parts reads back what it writes. */
  ghost predicate ReadsBackWhatItWrites(parts: ImgParts) {
    forall d :: parts.write(d).Ok? ==> parts.fromBytes(parts.write(d).value) == Ok(Some(d))
  }

  /** With a parser that reads back what it writes, the metadata saved into
      a resized image is exactly the metadata extracted from the original:
      the ICC profile and EXIF survive the resize (when the resized image
      parses and can be written). */
  lemma MetadataSurvivesResize(parts: ImgParts, original: seq<Byte>, resized: seq<Byte>)
    requires ReadsBackWhatItWrites(parts)
    requires ExtractMetadata(parts, original).Ok?
    requires parts.fromBytes(resized).Ok? && parts.fromBytes(resized).value.Some?
    requires var m := ExtractMetadata(parts, original).value;
      var d := parts.fromBytes(resized).value.value;
      parts.write(d.(icc := m.icc, exif := m.exif)).Ok?
    ensures var m := ExtractMetadata(parts, original).value;
      var saved := SaveMetadata(parts, resized, m);
      saved.Ok? && (m != Metadata(None, None) ==> ExtractMetadata(parts, saved.value) == Ok(m))
  {
    var m := ExtractMetadata(parts, original).value;
    var d := parts.fromBytes(resized).value.value;
    var e := d.(icc := m.icc, exif := m.exif);
    if m != Metadata(None, None) {
      assert SaveMetadata(parts, resized, m) == Ok(parts.write(e).value);
      assert parts.fromBytes(parts.write(e).value) == Ok(Some(e));
    }
  }
}
