/** The app's per-file routing (MainActivity.kt): which files of the chosen
    folder are converted to JPEG, which are recompressed in place by the
    native library, what the converted file is called, and when the
    original goes away. The folder is a map from file names to contents. */
module MainActivity {
  import opened Common
  import opened Parameters
  import opened FastImageInfo
  import Lib
  import JpegPipeline

  // ---------------------------------------------------------------------
  // Pixels

  /** The alpha byte of an Android colour `Int`: bits 24..31, which is what
      masking the sign-extended `Long` with 0xff000000 keeps. */
  function Alpha(pixel: int): (a: int)
    ensures 0 <= a < 256
  {
    (pixel % 0x1_0000_0000) / 0x100_0000
  }

  /** Whether some pixel of the bitmap is not fully opaque. The bitmap is
      indexed `[y, x]`: `Length0` is its height, `Length1` its width. */
  ghost predicate HasTransparency(bmp: array2<int>)
    reads bmp
  {
    exists y, x :: 0 <= y < bmp.Length0 && 0 <= x < bmp.Length1 && Alpha(bmp[y, x]) != 0xff
  }

  /** `pngIsTransparent`: scans the rows top to bottom, each left to right,
      and stops at the first pixel whose alpha is not 0xff. */
  method PngIsTransparent(bmp: array2<int>) returns (transparent: bool)
    ensures transparent <==> exists y, x :: 0 <= y < bmp.Length0 && 0 <= x < bmp.Length1 && Alpha(bmp[y, x]) != 0xff
  {
    for y := 0 to bmp.Length0
      invariant forall y', x :: 0 <= y' < y && 0 <= x < bmp.Length1 ==> Alpha(bmp[y', x]) == 0xff
    {
      for x := 0 to bmp.Length1
        invariant forall x' :: 0 <= x' < x ==> Alpha(bmp[y, x']) == 0xff
      {
        if Alpha(bmp[y, x]) != 0xff {
          return true;
        }
      }
    }
    return false;
  }

  // ---------------------------------------------------------------------
  // Names

  /** `lowercase()` on the ASCII letters. */
  function LowerChar(c: char): char {
    if 'A' <= c <= 'Z' then (c as int + 32) as char else c
  }

  function Lower(s: string): (r: string)
    ensures |r| == |s| && forall i :: 0 <= i < |s| ==> r[i] == LowerChar(s[i])
  {
    seq(|s|, i requires 0 <= i < |s| => LowerChar(s[i]))
  }

  /** The index of the last '.', if there is one. */
  function LastDot(s: string): (r: Option<nat>)
    ensures r.None? <==> '.' !in s
    ensures r.Some? ==> r.value < |s| && s[r.value] == '.' && '.' !in s[r.value + 1..]
  {
    if s == [] then None
    else if s[|s| - 1] == '.' then Some(|s| - 1)
    else
      var r := LastDot(s[..|s| - 1]);
      assert r.Some? ==> s[r.value + 1..] == s[..|s| - 1][r.value + 1..] + [s[|s| - 1]];
      assert r.None? ==> s == s[..|s| - 1] + [s[|s| - 1]];
      r
  }

  /** `substringAfterLast('.', "").lowercase()`: the text after the last
      dot, lowercased; empty when the name has no dot. */
  function Extension(name: string): (ext: string)
    ensures '.' !in ext
    ensures '.' !in name ==> ext == ""
  {
    match LastDot(name)
    case None => ""
    case Some(i) =>
      var r := Lower(name[i + 1..]);
      assert forall k :: 0 <= k < |r| ==> r[k] != '.' by {
        forall k | 0 <= k < |r| ensures r[k] != '.' {
          assert name[i + 1..][k] in name[i + 1..];
        }
      }
      r
  }

  /** The name up to its last dot. */
  function Stem(name: string): (stem: string)
    ensures |stem| <= |name| && stem == name[..|stem|]
  {
    match LastDot(name)
    case None => name
    case Some(i) => name[..i]
  }

  /** The dot a name is split at is the one before the extension. */
  lemma {:induction false} SplitAtLastDot(stem: string, ext: string)
    requires '.' !in ext
    ensures LastDot(stem + "." + ext) == Some(|stem|)
    ensures Extension(stem + "." + ext) == Lower(ext)
    ensures Stem(stem + "." + ext) == stem
  {
    var name := stem + "." + ext;
    assert name[|stem|] == '.';
    assert name[|stem| + 1..] == ext;
  }

  /** `removeSuffix`. */
  function RemoveSuffix(s: string, suffix: string): (r: string)
    ensures r == s || r + suffix == s
  {
    if |suffix| <= |s| && s[|s| - |suffix|..] == suffix then s[..|s| - |suffix|] else s
  }

  /** The converted file's name as `createConvertedJPEG` computes it: the
      lowercased extension with its dot removed from the end, then ".jpg".
      The removal is case-sensitive, so a name whose extension is not
      already lowercase keeps it. */
  function ConvertedNameAsWritten(fileName: string, fileExtension: string): (r: string)
    ensures |r| >= 4 && r[|r| - 4..] == ".jpg"
    ensures r[..|r| - 4] == fileName || r[..|r| - 4] + "." + fileExtension == fileName
  {
    RemoveSuffix(fileName, "." + fileExtension) + ".jpg"
  }

  /** The converted file's name as intended: the extension, in whatever
      case, replaced by "jpg". */
  function ConvertedName(fileName: string): (r: string)
    ensures |r| >= 4 && r[|r| - 4..] == ".jpg"
    ensures |r| <= |fileName| + 4 && r[..|r| - 4] == fileName[..|r| - 4]
  {
    Stem(fileName) + ".jpg"
  }

  /** Whatever the case of the extension, the converted name is the stem
      with ".jpg". */
  lemma ConvertedNameReplacesExtension(stem: string, ext: string)
    requires '.' !in ext
    ensures ConvertedName(stem + "." + ext) == stem + ".jpg"
  {
    SplitAtLastDot(stem, ext);
  }

  /** An upper-case extension survives into the converted name. */
  lemma UppercaseExtensionKept()
    ensures Extension("A.PNG") == "png"
    ensures ConvertedNameAsWritten("A.PNG", Extension("A.PNG")) == "A.PNG.jpg"
    ensures ConvertedName("A.PNG") == "A.jpg"
  {
    UppercaseExtensionLowered();
    UppercaseSuffixNotRemoved();
    ConvertedNameReplacesExtension("A", "PNG");
    assert "A" + "." + "PNG" == "A.PNG";
  }

  lemma UppercaseExtensionLowered()
    ensures Extension("A.PNG") == "png"
  {
    assert "A.PNG" == "A" + "." + "PNG";
    SplitAtLastDot("A", "PNG");
    assert Lower("PNG") == "png";
  }

  lemma UppercaseSuffixNotRemoved()
    ensures ConvertedNameAsWritten("A.PNG", "png") == "A.PNG.jpg"
  {
    assert RemoveSuffix("A.PNG", "." + "png") == "A.PNG" by {
      assert ("." + "png")[1] != "A.PNG"[2];
    }
    assert "A.PNG" + ".jpg" == "A.PNG.jpg";
  }

  /** When the extension is already lowercase, the code's name and the
      intended one agree: the stem with ".jpg". */
  lemma AsWrittenAgreesOnLowercase(stem: string, ext: string)
    requires '.' !in ext && Lower(ext) == ext
    ensures ConvertedNameAsWritten(stem + "." + ext, Extension(stem + "." + ext)) == stem + ".jpg"
    ensures ConvertedName(stem + "." + ext) == stem + ".jpg"
  {
    var name := stem + "." + ext;
    assert Extension(name) == ext && Stem(name) == stem by {
      SplitAtLastDot(stem, ext);
    }
    assert RemoveSuffix(name, "." + ext) == stem by {
      assert name == stem + ("." + ext);
      assert name[|stem|..] == "." + ext && name[..|stem|] == stem;
    }
  }

  /** A converted file has the extension "jpg", so the file it replaces,
      whose extension is png, bmp or webp, keeps its own name. */
  lemma ConvertedNameIsJpg(name: string)
    requires '.' in name
    ensures Extension(ConvertedName(name)) == "jpg"
    ensures Extension(name) in {"png", "bmp", "webp"} ==> ConvertedName(name) != name
  {
    var converted := ConvertedName(name);
    assert converted == Stem(name) + "." + "jpg";
    SplitAtLastDot(Stem(name), "jpg");
    LowerJpg();
    assert Extension(converted) == "jpg";
    if Extension(name) in {"png", "bmp", "webp"} {
      assert Extension(name) != Extension(converted);
    }
  }

  lemma LowerJpg()
    ensures Lower("jpg") == "jpg"
  {
    assert Lower("jpg")[0] == 'j' && Lower("jpg")[1] == 'p' && Lower("jpg")[2] == 'g';
  }

  // ---------------------------------------------------------------------
  // Routing

  /** Where `processFiles` sends a file: to the JPEG conversion with its
      extension, to the native recompression, or nowhere. */
  datatype Route = ImageFile(ext: string) | JpgFile | Skip

  /** The `when` on the extension; a file without a name is skipped. */
  function RouteOf(fileName: Option<string>): (r: Route)
    ensures r.ImageFile? <==> fileName.Some? && Extension(fileName.value) in {"png", "bmp", "webp"}
    ensures r.JpgFile? <==> fileName.Some? && Extension(fileName.value) in {"jpg", "jpeg"}
    ensures r.ImageFile? ==> r.ext == Extension(fileName.value)
  {
    match fileName
    case None => Skip
    case Some(name) =>
      var ext := Extension(name);
      if ext == "png" || ext == "bmp" || ext == "webp" then ImageFile(ext)
      else if ext == "jpg" || ext == "jpeg" then JpgFile
      else Skip
  }

  /** The route depends on the extension only up to case, and a converted
      file is itself a JPEG for a later run. */
  lemma RouteIgnoresCase(stem: string, ext: string, converted: string)
    requires '.' !in ext
    ensures RouteOf(Some(stem + "." + ext)) == RouteOf(Some(stem + "." + Lower(ext)))
    ensures RouteOf(Some(converted)).ImageFile? ==>
      RouteOf(Some(ConvertedNameAsWritten(converted, Extension(converted)))) == JpgFile
  {
    SplitAtLastDot(stem, ext);
    LowerKeepsNoDot(ext);
    SplitAtLastDot(stem, Lower(ext));
    if RouteOf(Some(converted)).ImageFile? {
      AsWrittenNameIsJpg(converted, Extension(converted));
    }
  }

  /** Lowercasing adds no dot and is idempotent. */
  lemma LowerKeepsNoDot(ext: string)
    requires '.' !in ext
    ensures '.' !in Lower(ext)
    ensures Lower(Lower(ext)) == Lower(ext)
  {
    forall k | 0 <= k < |ext| ensures Lower(ext)[k] != '.' {
      assert ext[k] in ext;
    }
  }

  // ---------------------------------------------------------------------
  // What happens to the folder

  /** The folder the user picked: file names and contents. */
  class Folder {
    var files: map<string, seq<Byte>>

    constructor (initial: map<string, seq<Byte>>)
      ensures files == initial
    {
      files := initial;
    }
  }

  /** The folder after `processImageFile`: when the file is converted, a
      JPEG file named as `createConvertedJPEG` names it is created next to
      it and receives the encoder's bytes (nothing when the encoder fails);
      the original is deleted only when the encoder succeeded. */
  function ImageFileOutcome(files: map<string, seq<Byte>>, name: string, ext: string, convert: bool, encoded: Option<seq<Byte>>): (after: map<string, seq<Byte>>)
    ensures !convert ==> after == files
    ensures after.Keys <= files.Keys + {ConvertedNameAsWritten(name, ext)}
    ensures files.Keys - {name} <= after.Keys
  {
    if !convert then files else Converted(files, name, ConvertedNameAsWritten(name, ext), encoded)
  }

  /** The JPEG `target` created with the encoder's bytes (empty when it
      failed), and the original `name` deleted when it succeeded. */
  function Converted(files: map<string, seq<Byte>>, name: string, target: string, encoded: Option<seq<Byte>>): map<string, seq<Byte>> {
    var created := files[target := if encoded.Some? then encoded.value else []];
    if encoded.Some? then created - {name} else created
  }

  /** For a target other than the original: the target holds the bytes,
      the original goes exactly when the encoder succeeded, and nothing
      else changes. */
  lemma ConvertedTouchesTwoFiles(files: map<string, seq<Byte>>, name: string, target: string, encoded: Option<seq<Byte>>)
    requires target != name
    ensures var after := Converted(files, name, target, encoded);
      && target in after && after[target] == (if encoded.Some? then encoded.value else [])
      && (name in files && name !in after <==> name in files && encoded.Some?)
      && (forall other :: other != name && other != target ==>
            (other in after <==> other in files) && (other in files ==> after[other] == files[other]))
  {
  }

  /** The original disappears only when the JPEG was written next to it;
      a failed encode leaves it, and every other file is untouched. The
      created name never collides with the original, whatever the case of
      its extension. */
  lemma {:induction false} ImageFileOutcomeKeepsWhatItMust(files: map<string, seq<Byte>>, name: string, convert: bool, encoded: Option<seq<Byte>>)
    requires Extension(name) in {"png", "bmp", "webp"}
    ensures var ext := Extension(name);
      var target := ConvertedNameAsWritten(name, ext);
      var after := ImageFileOutcome(files, name, ext, convert, encoded);
      && target != name && Extension(target) == "jpg"
      && (!convert ==> after == files)
      && (convert ==> target in after && after[target] == (if encoded.Some? then encoded.value else []))
      && (name in files && name !in after <==> name in files && convert && encoded.Some?)
      && (forall other :: other != name && other != target ==>
            (other in after <==> other in files) && (other in files ==> after[other] == files[other]))
  {
    var target := ConvertedNameAsWritten(name, Extension(name));
    AsWrittenNameIsJpg(name, Extension(name));
    ConvertedTouchesTwoFiles(files, name, target, encoded);
  }

  /** The name `createConvertedJPEG` gives has the extension "jpg", so for
      any other extension it differs from the name it was made from. */
  lemma AsWrittenNameIsJpg(name: string, ext: string)
    requires ext != "jpg"
    ensures Extension(ConvertedNameAsWritten(name, ext)) == "jpg"
    ensures ConvertedNameAsWritten(name, ext) != name
  {
    var target := ConvertedNameAsWritten(name, ext);
    var prefix := target[..|target| - 4];
    assert target == prefix + "." + "jpg";
    SplitAtLastDot(prefix, "jpg");
    LowerJpg();
    if target == name {
      assert false;
    }
  }

  /** `processImageFile` and `createConvertedJPEG`. `bitmap` is the decoded
      image (`None` when decoding fails) and `encoded` what
      `bitmap.compress` writes as JPEG at quality 82 (`None` when it returns
      false). A PNG with a transparent pixel is left alone. */
  method ProcessImageFile(folder: Folder, name: string, ext: string, bitmap: Option<array2<int>>, encoded: Option<seq<Byte>>)
    modifies folder
    ensures folder.files == ImageFileOutcome(old(folder.files), name, ext,
      bitmap.Some? && (ext != "png" || !HasTransparency(bitmap.value)), encoded)
  {
    if bitmap.Some? {
      var convert := true;
      if ext == "png" {
        var transparent := PngIsTransparent(bitmap.value);
        convert := !transparent;
      }
      if convert {
        CreateConvertedJpeg(folder, name, ext, encoded);
      }
    }
  }

  /** `createConvertedJPEG`: create the file, write the encoder's bytes,
      and delete the original when the encoder succeeded. */
  method CreateConvertedJpeg(folder: Folder, name: string, ext: string, encoded: Option<seq<Byte>>)
    modifies folder
    ensures folder.files == ImageFileOutcome(old(folder.files), name, ext, true, encoded)
  {
    var newName := RemoveSuffix(name, "." + ext) + ".jpg";
    folder.files := folder.files[newName := []];
    if encoded.Some? {
      folder.files := folder.files[newName := encoded.value];
      folder.files := folder.files - {name};
    }
  }

  /** Kotlin `Int` read by the native side as `u32`. */
  function IntAsU32(i: int): (r: U32)
    ensures 0 <= i < 0x1_0000_0000 ==> r == i
    ensures -0x1_0000_0000 <= i < 0 ==> r == i + 0x1_0000_0000
  {
    i % 0x1_0000_0000
  }

  /** The ordinal of `ChromaSubsampling.Auto`. */
  const AutoOrdinal: U32 := 4

  /** The `CCSParameter` of `compressAndReplaceJPG`, as the native side
      reads it: metadata kept, every quality 82, automatic chroma, no
      Zopfli, optimisation on, and the size the sniffer found. */
  function RecompressParameters(width: int, height: int): (c: CCSParameters)
    ensures c.keepMetadata && c.optimize && !c.pngForceZopfli
    ensures c.jpegQuality == c.pngQuality == c.webpQuality == 82
    ensures c.jpegChromaSubsampling == AutoOrdinal
    ensures c.width == IntAsU32(width) && c.height == IntAsU32(height)
  {
    CCSParameters(true, 82, AutoOrdinal, 82, false, 82, true, IntAsU32(width), IntAsU32(height))
  }

  /** What the library does with those parameters: they pass validation,
      the JPEG pipeline takes the lossless transcode, and a resize is
      requested whenever the sniffer found a size, to that same size. A
      size the sniffer left at -1 becomes 2^32 - 1. */
  lemma RecompressionIsLosslessAtOwnSize(width: int, height: int, libs: JpegPipeline.Libs, input: seq<Byte>)
    ensures var p := Lib.ToParameters(RecompressParameters(width, height));
      && Lib.ValidateParameters(p).Ok?
      && p.keepMetadata && p.optimize
      && (0 <= width < 0x8000_0000 ==> p.width == width)
      && (width == -1 ==> p.width == 0xFFFF_FFFF)
      && (ResizeRequested(p) <==> IntAsU32(width) != 0 || IntAsU32(height) != 0)
      && (JpegPipeline.Prepared(libs, input, p).Ok? ==>
           JpegPipeline.CompressToMemory(libs, input, p)
           == JpegPipeline.Guard(JpegPipeline.Lossless(libs.mozjpeg, JpegPipeline.Prepared(libs, input, p).value, p),
                                 libs.mozjpeg.staleErrorCode))
  {
  }

  /** The folder after `processJpgFile`: a file the sniffer does not
      recognise throws, which is caught and logged; otherwise the native
      call runs, and its bytes replace the file's when it returns any. */
  function JpgFileOutcome(files: map<string, seq<Byte>>, name: string, native: (seq<Byte>, CCSParameters) -> Option<seq<Byte>>): (after: map<string, seq<Byte>>)
    requires name in files
    ensures after.Keys == files.Keys
    ensures forall other :: other in files && other != name ==> after[other] == files[other]
    ensures Sniff(files[name]).Parsed? && Sniff(files[name]).info.mimeType.None? ==> after == files
  {
    var info := Sniff(files[name]);
    if info.Truncated? || info.info.mimeType.None? then files
    else match native(files[name], RecompressParameters(info.info.width, info.info.height))
      case None => files
      case Some(compressed) => files[name := compressed]
  }

  /** Recompression never adds, removes or renames a file, and it touches
      only the file it was given, only when the native call returned
      bytes. */
  lemma JpgFileOutcomeTouchesOnlyItsFile(files: map<string, seq<Byte>>, name: string, native: (seq<Byte>, CCSParameters) -> Option<seq<Byte>>)
    requires name in files && Sniff(files[name]).Parsed?
    ensures var after := JpgFileOutcome(files, name, native);
      var info := Sniff(files[name]).info;
      && after.Keys == files.Keys
      && (forall other :: other in files && other != name ==> after[other] == files[other])
      && (after[name] != files[name] ==>
            info.mimeType.Some?
            && native(files[name], RecompressParameters(info.width, info.height)) == Some(after[name]))
  {
  }

  /** `processJpgFile` and `compressAndReplaceJPG`: read the file, sniff
      its size, call the native library, and overwrite the file with the
      result when there is one. */
  method ProcessJpgFile(folder: Folder, name: string, native: (seq<Byte>, CCSParameters) -> Option<seq<Byte>>)
    requires name in folder.files && Sniff(folder.files[name]).Parsed?
    modifies folder
    ensures folder.files == JpgFileOutcome(old(folder.files), name, native)
  {
    var data := folder.files[name];
    var imgInfo := FromBytes(data);
    if imgInfo.Err? {
      return;
    }
    var csp := RecompressParameters(imgInfo.value.width, imgInfo.value.height);
    var compressed := native(data, csp);
    if compressed.Some? {
      folder.files := folder.files[name := compressed.value];
    }
  }

  /** The body `processFiles` runs for one file: route it by its
      extension. */
  method ProcessFile(folder: Folder, fileName: Option<string>, bitmap: Option<array2<int>>, encoded: Option<seq<Byte>>,
                     native: (seq<Byte>, CCSParameters) -> Option<seq<Byte>>)
    requires RouteOf(fileName).JpgFile? ==> fileName.value in folder.files && Sniff(folder.files[fileName.value]).Parsed?
    modifies folder
    ensures match RouteOf(fileName)
      case Skip => folder.files == old(folder.files)
      case JpgFile => folder.files == JpgFileOutcome(old(folder.files), fileName.value, native)
      case ImageFile(ext) => folder.files == ImageFileOutcome(old(folder.files), fileName.value, ext,
                               bitmap.Some? && (ext != "png" || !HasTransparency(bitmap.value)), encoded)
  {
    if fileName.None? {
      return;
    }
    var fileExtension := Extension(fileName.value);
    if fileExtension == "png" || fileExtension == "bmp" || fileExtension == "webp" {
      ProcessImageFile(folder, fileName.value, fileExtension, bitmap, encoded);
    } else if fileExtension == "jpg" || fileExtension == "jpeg" {
      ProcessJpgFile(folder, fileName.value, native);
    }
  }
}
