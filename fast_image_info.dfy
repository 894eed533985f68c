/** The header sniffer of the app (FastImageInfo.kt): reads the first bytes
    of an image through an input stream over a byte array and finds the
    MIME type, width and height without decoding the image. */
module FastImageInfo {
  import opened Common

  // ---------------------------------------------------------------------
  // Integers as the stream delivers them

  /** Kotlin `Int`: the two's-complement value of the low 32 bits. */
  function ToInt32(x: int): (r: int)
    ensures -0x8000_0000 <= r < 0x8000_0000
    ensures 0 <= x < 0x8000_0000 ==> r == x
    ensures 0x8000_0000 <= x < 0x1_0000_0000 ==> r == x - 0x1_0000_0000
  {
    var low := x % 0x1_0000_0000;
    if low < 0x8000_0000 then low else low - 0x1_0000_0000
  }

  function Pow2(k: nat): (r: nat)
    ensures r >= 1
  {
    if k == 0 then 1 else 2 * Pow2(k - 1)
  }

  lemma {:induction false} Pow2Add(a: nat, b: nat)
    ensures Pow2(a + b) == Pow2(a) * Pow2(b)
  {
    if a > 0 {
      Pow2Add(a - 1, b);
    }
  }

  lemma Pow2Byte(k: nat)
    ensures Pow2(8 * (k + 1)) == 256 * Pow2(8 * k)
  {
    Pow2Add(8, 8 * k);
    assert Pow2(8) == 256;
  }

  /** The bytes read as an unsigned number, first byte most significant. */
  function BigEndian(s: seq<Byte>): nat {
    if s == [] then 0 else BigEndian(s[..|s| - 1]) * 256 + s[|s| - 1]
  }

  /** The bytes read as an unsigned number, first byte least significant. */
  function LittleEndian(s: seq<Byte>): nat {
    if s == [] then 0 else s[0] + 256 * LittleEndian(s[1..])
  }

  function Reversed(s: seq<Byte>): (r: seq<Byte>)
    ensures |r| == |s|
  {
    if s == [] then [] else [s[|s| - 1]] + Reversed(s[..|s| - 1])
  }

  /** The two byte orders differ by reversing the bytes. */
  lemma {:induction false} BigEndianIsReversedLittleEndian(s: seq<Byte>)
    ensures BigEndian(s) == LittleEndian(Reversed(s))
  {
    if s != [] {
      var r := Reversed(s);
      assert r[1..] == Reversed(s[..|s| - 1]);
      BigEndianIsReversedLittleEndian(s[..|s| - 1]);
    }
  }

  lemma ShiftByte(x: int, y: int, z: int)
    ensures 256 * (x + y * z) == 256 * x + y * (256 * z)
  {
  }

  /** Appending a byte to a little-endian number adds it at the top. */
  lemma {:induction false} LittleEndianAppend(s: seq<Byte>, b: Byte)
    ensures LittleEndian(s + [b]) == LittleEndian(s) + b * Pow2(8 * |s|)
  {
    if s == [] {
      assert Pow2(0) == 1;
    } else {
      var t := s[1..];
      assert (s + [b])[1..] == t + [b];
      LittleEndianAppend(t, b);
      Pow2Byte(|t|);
      var p := Pow2(8 * |t|);
      var tail := LittleEndian(t);
      calc {
        LittleEndian(s + [b]);
        s[0] + 256 * LittleEndian(t + [b]);
        s[0] + 256 * (tail + b * p);
        { ShiftByte(tail, b, p); }
        s[0] + 256 * tail + b * (256 * p);
        LittleEndian(s) + b * Pow2(8 * |s|);
      }
    }
  }

  /** What `readInt(n, bigEndian)` has accumulated after reading `prefix`:
      each byte shifted into its lane of the n-byte result. */
  function Lanes(prefix: seq<Byte>, n: nat, bigEndian: bool): int
    requires |prefix| <= n
  {
    if bigEndian then BigEndian(prefix) * Pow2(8 * (n - |prefix|)) else LittleEndian(prefix)
  }

  /** One iteration of `readInt`: the next byte, shifted by the current
      shift, fills the next lane. */
  lemma LanesStep(prefix: seq<Byte>, b: Byte, n: nat, bigEndian: bool)
    requires |prefix| < n
    ensures Lanes(prefix + [b], n, bigEndian)
            == Lanes(prefix, n, bigEndian) + b * Pow2(if bigEndian then 8 * (n - 1 - |prefix|) else 8 * |prefix|)
  {
    if bigEndian {
      assert (prefix + [b])[..|prefix|] == prefix;
      Pow2Byte(n - 1 - |prefix|);
    } else {
      LittleEndianAppend(prefix, b);
    }
  }

  /** All n lanes filled: the number in the chosen byte order. */
  lemma LanesComplete(s: seq<Byte>, bigEndian: bool)
    ensures Lanes(s, |s|, bigEndian) == if bigEndian then BigEndian(s) else LittleEndian(s)
  {
    assert Pow2(0) == 1;
  }

  /** An n-byte number is below 2^(8n). */
  lemma {:induction false} EndianBounds(s: seq<Byte>)
    ensures BigEndian(s) < Pow2(8 * |s|)
    ensures LittleEndian(s) < Pow2(8 * |s|)
  {
    if s != [] {
      EndianBounds(s[..|s| - 1]);
      EndianBounds(s[1..]);
      Pow2Byte(|s| - 1);
    }
  }

  // ---------------------------------------------------------------------
  // The stream: `ByteArrayInputStream` over the image bytes

  /** `read()`: the next byte, or -1 at the end. */
  function ReadAt(data: seq<Byte>, pos: nat): (int, nat)
    requires pos <= |data|
  {
    if pos < |data| then (data[pos], pos + 1) else (-1, pos)
  }

  /** `skip(n)`: moves forward by n, but never past the end and never
      backwards. */
  function SkipAt(data: seq<Byte>, pos: nat, n: int): (p: nat)
    requires pos <= |data|
    ensures pos <= p <= |data|
  {
    if n <= 0 then pos else if n < |data| - pos then pos + n else |data|
  }

  /** `readInt(n, bigEndian)` on bytes that are all there: the n bytes in
      the given order, as a Kotlin `Int`. */
  function ReadIntAt(data: seq<Byte>, pos: nat, n: nat, bigEndian: bool): int
    requires pos + n <= |data|
  {
    ToInt32(if bigEndian then BigEndian(data[pos..pos + n]) else LittleEndian(data[pos..pos + n]))
  }

  /** `read(bytes)` into a fresh array of `len` zero bytes: as many bytes as
      remain, up to `len`, with the rest of the array left zero. */
  function ReadArrayAt(data: seq<Byte>, pos: nat, len: nat): (r: (seq<Byte>, nat))
    requires pos <= |data|
    ensures |r.0| == len && pos <= r.1 <= |data|
  {
    var k := if len < |data| - pos then len else |data| - pos;
    (data[pos..pos + k] + seq(len - k, _ => 0), pos + k)
  }

  // ---------------------------------------------------------------------
  // What the sniffer finds

  /** The three fields of a `FastImageInfo`; `mimeType` is `None` when the
      constructor throws. */
  datatype Info = Info(mimeType: Option<string>, width: int, height: int)

  /** The outcome of sniffing. `Truncated` stands for the inputs on which a
      multi-byte `readInt` would run past the end and assemble its value
      from -1s; those are outside this model. */
  datatype Sniffed = Parsed(info: Info) | Truncated

  predicate IsGif(c1: int, c2: int, c3: int) { c1 == 'G' as int && c2 == 'I' as int && c3 == 'F' as int }
  predicate IsJpg(c1: int, c2: int) { c1 == 0xFF && c2 == 0xD8 }
  predicate IsPng(c1: int, c2: int, c3: int) { c1 == 137 && c2 == 80 && c3 == 78 }
  predicate IsBmp(c1: int, c2: int) { c1 == 66 && c2 == 77 }
  predicate IsWebP(c1: int, c2: int, c3: int) { c1 == 'R' as int && c2 == 'I' as int && c3 == 'F' as int }
  predicate IsTiff(c1: int, c2: int, c3: int, c4: int) {
    || (c1 == 'M' as int && c2 == 'M' as int && c3 == 0 && c4 == 42)
    || (c1 == 'I' as int && c2 == 'I' as int && c3 == 42 && c4 == 0)
  }

  /** The signatures exclude each other, so the order in which they are
      tested never decides the format. */
  lemma SignaturesExclusive(c1: int, c2: int, c3: int, c4: int)
    ensures IsGif(c1, c2, c3) ==> !IsJpg(c1, c2) && !IsPng(c1, c2, c3) && !IsBmp(c1, c2) && !IsWebP(c1, c2, c3) && !IsTiff(c1, c2, c3, c4)
    ensures IsJpg(c1, c2) ==> !IsPng(c1, c2, c3) && !IsBmp(c1, c2) && !IsWebP(c1, c2, c3) && !IsTiff(c1, c2, c3, c4)
    ensures IsPng(c1, c2, c3) ==> !IsBmp(c1, c2) && !IsWebP(c1, c2, c3) && !IsTiff(c1, c2, c3, c4)
    ensures IsBmp(c1, c2) ==> !IsWebP(c1, c2, c3) && !IsTiff(c1, c2, c3, c4)
    ensures IsWebP(c1, c2, c3) ==> !IsTiff(c1, c2, c3, c4)
  {
  }

  /** Width, then height, at fixed offsets after a signature read to `pos`:
      skip 15, read two bytes, skip 2, read two bytes. */
  function FixedDimensions(data: seq<Byte>, pos: nat, bigEndian: bool, mime: string): Sniffed
    requires pos <= |data|
  {
    var p := SkipAt(data, pos, 15);
    if p + 2 > |data| then Truncated
    else
      var width := ReadIntAt(data, p, 2, bigEndian);
      var q := SkipAt(data, p + 2, 2);
      if q + 2 > |data| then Truncated
      else Parsed(Info(Some(mime), width, ReadIntAt(data, q, 2, bigEndian)))
  }

  /** `handleJpg` from `pos`, with `cur` the byte last read: while it is
      0xFF, read a marker and a big-endian length; at SOF0..SOF2 skip the
      precision byte and read height, then width; at any other marker skip
      the rest of the segment and read the next byte. Without an SOF the
      fields keep their values. Either way the walk reports JPEG. */
  function JpegWalk(data: seq<Byte>, pos: nat, cur: int, width: int, height: int): (r: Sniffed)
    requires pos <= |data|
    ensures r.Parsed? ==> r.info.mimeType == Some("image/jpeg")
    ensures cur != 255 ==> r == Parsed(Info(Some("image/jpeg"), width, height))
    decreases |data| - pos
  {
    if cur != 255 then Parsed(Info(Some("image/jpeg"), width, height))
    else
      var (marker, p1) := ReadAt(data, pos);
      if p1 + 2 > |data| then Truncated
      else
        var len := ReadIntAt(data, p1, 2, true);
        if marker == 192 || marker == 193 || marker == 194 then
          var p2 := SkipAt(data, p1 + 2, 1);
          if p2 + 4 > |data| then Truncated
          else Parsed(Info(Some("image/jpeg"), ReadIntAt(data, p2 + 2, 2, true), ReadIntAt(data, p2, 2, true)))
        else
          var p2 := SkipAt(data, p1 + 2, len - 2);
          var (next, p3) := ReadAt(data, p2);
          JpegWalk(data, p3, next, width, height)
  }

  /** A walk that reaches a 0xFF byte and succeeds finds a marker byte and
      a two-byte segment length after it. */
  lemma JpegStep(data: seq<Byte>, pos: nat, width: int, height: int)
    requires pos <= |data| && JpegWalk(data, pos, 255, width, height).Parsed?
    ensures pos + 3 <= |data|
  {
  }

  /** A frame header (SOF0..SOF2) ends the walk with the height and width
      that follow the precision byte. */
  lemma JpegFrame(data: seq<Byte>, pos: nat, width: int, height: int)
    requires pos + 3 <= |data| && JpegWalk(data, pos, 255, width, height).Parsed?
    requires data[pos] == 192 || data[pos] == 193 || data[pos] == 194
    ensures var p2 := SkipAt(data, pos + 3, 1);
      && p2 + 4 <= |data|
      && JpegWalk(data, pos, 255, width, height)
         == Parsed(Info(Some("image/jpeg"), ReadIntAt(data, p2 + 2, 2, true), ReadIntAt(data, p2, 2, true)))
  {
  }

  /** Any other segment is skipped by its length, and the walk goes on
      from the byte after it. */
  lemma JpegSkip(data: seq<Byte>, pos: nat, width: int, height: int, p2: nat)
    requires pos + 3 <= |data| && JpegWalk(data, pos, 255, width, height).Parsed?
    requires !(data[pos] == 192 || data[pos] == 193 || data[pos] == 194)
    requires p2 == SkipAt(data, pos + 3, ReadIntAt(data, pos + 1, 2, true) - 2)
    ensures JpegWalk(data, pos, 255, width, height) == JpegWalk(data, ReadAt(data, p2).1, ReadAt(data, p2).0, width, height)
  {
  }

  /** Whether an IFD entry's value is a two-byte field (SHORT, SSHORT)
      followed by two bytes of padding, rather than a four-byte one. */
  predicate ShortField(fieldType: int) {
    fieldType == 3 || fieldType == 8
  }

  /** An IFD entry read from `pos`: its tag, its value, and the position
      after it. */
  datatype Entry = Entry(tag: int, value: int, next: nat)

  /** Whether the entry at `pos` lies within the data. */
  predicate EntryFits(data: seq<Byte>, pos: nat, bigEndian: bool) {
    && pos + 4 <= |data|
    && pos + (if ShortField(ReadIntAt(data, pos + 2, 2, bigEndian)) then 6 else 8) <= |data|
  }

  /** One entry as the loop body reads it: tag, field type, and a two-byte
      value with two bytes skipped, or a four-byte value. */
  function EntryAt(data: seq<Byte>, pos: nat, bigEndian: bool): (e: Entry)
    requires EntryFits(data, pos, bigEndian)
    ensures pos < e.next <= |data|
  {
    var fieldType := ReadIntAt(data, pos + 2, 2, bigEndian);
    if ShortField(fieldType) then Entry(ReadIntAt(data, pos, 2, bigEndian), ReadIntAt(data, pos + 4, 2, bigEndian), SkipAt(data, pos + 6, 2))
    else Entry(ReadIntAt(data, pos, 2, bigEndian), ReadIntAt(data, pos + 4, 4, bigEndian), pos + 8)
  }

  /** The `for` loop over the remaining IFD entries from `pos`: tag 256 sets
      the width and 257 the height, and the loop ends as soon as both are
      set. TIFF is reported only then; a loop that runs out of entries
      reports nothing. */
  function TiffEntries(data: seq<Byte>, pos: nat, bigEndian: bool, remaining: int, width: int, height: int): (r: Sniffed)
    requires pos <= |data|
    ensures r.Parsed? ==> r.info.mimeType == Some("image/tiff") || r.info.mimeType == None
    ensures r.Parsed? && r.info.mimeType.Some? ==> r.info.width != -1 && r.info.height != -1
    decreases if remaining > 0 then remaining else 0
  {
    if remaining <= 0 then Parsed(Info(None, width, height))
    else if !EntryFits(data, pos, bigEndian) then Truncated
    else
      var e := EntryAt(data, pos, bigEndian);
      var w := if e.tag == 256 then e.value else width;
      var h := if e.tag == 257 then e.value else height;
      if w != -1 && h != -1 then Parsed(Info(Some("image/tiff"), w, h))
      else TiffEntries(data, e.next, bigEndian, remaining - 1, w, h)
  }

  /** A walk with entries left that succeeds has its next entry within the
      data. */
  lemma TiffStep(data: seq<Byte>, pos: nat, bigEndian: bool, remaining: int, width: int, height: int)
    requires pos <= |data| && 0 < remaining
    requires TiffEntries(data, pos, bigEndian, remaining, width, height).Parsed?
    ensures EntryFits(data, pos, bigEndian)
  {
  }

  /** `handleOtherFormats` after the three signature bytes: a fourth byte,
      and for TIFF the byte order, the first IFD's offset, its entry count
      and its entries. Anything else is unsupported. */
  function OtherFormats(data: seq<Byte>, pos: nat, c1: int, c2: int, c3: int, width: int, height: int): (r: Sniffed)
    requires pos <= |data|
    ensures (pos == |data| || !IsTiff(c1, c2, c3, data[pos])) ==> r == Parsed(Info(None, width, height))
    ensures r.Parsed? && r.info.mimeType.Some? ==>
      r.info.mimeType == Some("image/tiff") && r.info.width != -1 && r.info.height != -1
  {
    var (c4, p4) := ReadAt(data, pos);
    if !IsTiff(c1, c2, c3, c4) then Parsed(Info(None, width, height))
    else TiffFormat(data, p4, c1 == 'M' as int, width, height)
  }

  /** The TIFF branch from the IFD offset at `p4` on: the offset, the
      entry count at the IFD, and the walk over its entries. */
  function TiffFormat(data: seq<Byte>, p4: nat, bigEndian: bool, width: int, height: int): (r: Sniffed)
    requires p4 <= |data|
    ensures r.Parsed? && r.info.mimeType.Some? ==>
      r.info.mimeType == Some("image/tiff") && r.info.width != -1 && r.info.height != -1
  {
    if p4 + 4 > |data| then Truncated
    else
      var p5 := TiffCountAt(data, p4, bigEndian);
      if p5 + 2 > |data| then Truncated
      else TiffEntries(data, p5 + 2, bigEndian, ReadIntAt(data, p5, 2, bigEndian), width, height)
  }

  /** Where the entry count of the first IFD sits: after the 4-byte IFD
      offset at `p4`, skipping to that offset (which counts from the start
      of the file, 8 bytes before `p4 + 4`). */
  function TiffCountAt(data: seq<Byte>, p4: nat, bigEndian: bool): (p: nat)
    requires p4 + 4 <= |data|
    ensures p4 + 4 <= p <= |data|
  {
    SkipAt(data, p4 + 4, ToInt32(ReadIntAt(data, p4, 4, bigEndian) - 8))
  }

  /** An IFD entry as section 2 of the TIFF 6.0 specification lays it
      out: tag, field type, a 4-byte count, and a 4-byte value field whose
      first two bytes hold a SHORT value. Each entry is 12 bytes. */
  function IfdEntryAt(data: seq<Byte>, pos: nat, bigEndian: bool): (e: Entry)
    requires pos + 12 <= |data|
    ensures e.next == pos + 12
    ensures e.tag == ReadIntAt(data, pos, 2, bigEndian)
  {
    var fieldType := ReadIntAt(data, pos + 2, 2, bigEndian);
    var value := if ShortField(fieldType) then ReadIntAt(data, pos + 8, 2, bigEndian) else ReadIntAt(data, pos + 8, 4, bigEndian);
    Entry(ReadIntAt(data, pos, 2, bigEndian), value, pos + 12)
  }

  /** The entry loop with 12-byte entries: the walk `TiffEntries` was
      evidently meant to be. TIFF is reported only once both dimensions
      are set. */
  function IfdEntries(data: seq<Byte>, pos: nat, bigEndian: bool, remaining: int, width: int, height: int): (r: Sniffed)
    requires pos <= |data|
    ensures r.Parsed? ==> r.info.mimeType == Some("image/tiff") || r.info.mimeType == None
    ensures r.Parsed? && r.info.mimeType.Some? ==> r.info.width != -1 && r.info.height != -1
    decreases if remaining > 0 then remaining else 0
  {
    if remaining <= 0 then Parsed(Info(None, width, height))
    else if pos + 12 > |data| then Truncated
    else
      var e := IfdEntryAt(data, pos, bigEndian);
      var w := if e.tag == 256 then e.value else width;
      var h := if e.tag == 257 then e.value else height;
      if w != -1 && h != -1 then Parsed(Info(Some("image/tiff"), w, h))
      else IfdEntries(data, e.next, bigEndian, remaining - 1, w, h)
  }

  /** An IFD whose first two entries are ImageWidth and ImageLength: the
      corrected walk reports TIFF with their values, whatever follows.
      SHORT values always qualify; a LONG value qualifies unless it reads
      as -1, the code's marker for "not set". */
  lemma IfdWidthThenLength(data: seq<Byte>, pos: nat, bigEndian: bool, remaining: int)
    requires pos + 24 <= |data| && 2 <= remaining
    requires ReadIntAt(data, pos, 2, bigEndian) == 256 && ReadIntAt(data, pos + 12, 2, bigEndian) == 257
    ensures var w := IfdEntryAt(data, pos, bigEndian).value;
      var h := IfdEntryAt(data, pos + 12, bigEndian).value;
      w != -1 && h != -1 ==> IfdEntries(data, pos, bigEndian, remaining, -1, -1) == Parsed(Info(Some("image/tiff"), w, h))
    ensures ShortField(ReadIntAt(data, pos + 2, 2, bigEndian)) && ShortField(ReadIntAt(data, pos + 14, 2, bigEndian)) ==>
      IfdEntries(data, pos, bigEndian, remaining, -1, -1)
      == Parsed(Info(Some("image/tiff"), ReadIntAt(data, pos + 8, 2, bigEndian), ReadIntAt(data, pos + 20, 2, bigEndian)))
  {
    ReadIntAtSmall(data, pos + 8, bigEndian);
    ReadIntAtSmall(data, pos + 20, bigEndian);
  }

  /** A minimal big-endian TIFF: the header with the first IFD at offset
      8, and that IFD with two SHORT entries, ImageWidth 16 and
      ImageLength 32, then a zero next-IFD offset. */
  function MinimalTiff(): (data: seq<Byte>)
    ensures |data| == 38
  {
    seq(38, i => MinimalTiffByte(i))
  }

  /** Byte `i` of `MinimalTiff`: "MM", 42, offset 8, count 2; the entries
      256/SHORT/1/16 and 257/SHORT/1/32; every other byte 0. */
  function MinimalTiffByte(i: int): Byte {
    if i == 0 || i == 1 then 0x4D
    else if i == 3 then 42
    else if i == 7 then 8
    else if i == 9 then 2
    else if i == 10 || i == 22 || i == 23 || i == 17 || i == 29 then 1
    else if i == 13 || i == 25 then 3
    else if i == 19 then 16
    else if i == 31 then 32
    else 0
  }

  /** The fields of `MinimalTiff` that the two entry walks read, as
      big-endian 16-bit values. */
  lemma MinimalTiffFields()
    ensures var data := MinimalTiff();
      && ReadIntAt(data, 10, 2, true) == 256 && ReadIntAt(data, 12, 2, true) == 3
      && ReadIntAt(data, 14, 2, true) == 0 && ReadIntAt(data, 18, 2, true) == 16
      && ReadIntAt(data, 20, 2, true) == 0 && ReadIntAt(data, 22, 2, true) == 257
      && ReadIntAt(data, 24, 2, true) == 3 && ReadIntAt(data, 30, 2, true) == 32
  {
    var data := MinimalTiff();
    MinimalTiffBytes();
    ReadIntAtSmall(data, 10, true);
    ReadIntAtSmall(data, 12, true);
    ReadIntAtSmall(data, 14, true);
    ReadIntAtSmall(data, 18, true);
    ReadIntAtSmall(data, 20, true);
    ReadIntAtSmall(data, 22, true);
    ReadIntAtSmall(data, 24, true);
    ReadIntAtSmall(data, 30, true);
  }

  lemma MinimalTiffBytes()
    ensures var data := MinimalTiff();
      && data[10] == 1 && data[11] == 0 && data[12] == 0 && data[13] == 3
      && data[14] == 0 && data[15] == 0 && data[18] == 0 && data[19] == 16
      && data[20] == 0 && data[21] == 0 && data[22] == 1 && data[23] == 1
      && data[24] == 0 && data[25] == 3 && data[30] == 0 && data[31] == 32
  {
  }

  /** As written, the entry loop reads the count field of the width entry
      as its value, so the width comes out as 0; the next "entry" starts
      inside the first one, and the height is never found. */
  lemma MinimalTiffAsWritten()
    ensures TiffEntries(MinimalTiff(), 10, true, 2, -1, -1) == Parsed(Info(None, 0, -1))
  {
    var data := MinimalTiff();
    MinimalTiffFields();
    assert EntryAt(data, 10, true) == Entry(256, 0, 18);
    assert EntryAt(data, 18, true).tag == 16;
  }

  /** With 12-byte entries the same IFD gives TIFF, 16 by 32. */
  lemma MinimalTiffCorrected()
    ensures IfdEntries(MinimalTiff(), 10, true, 2, -1, -1) == Parsed(Info(Some("image/tiff"), 16, 32))
  {
    var data := MinimalTiff();
    MinimalTiffFields();
    assert IfdEntryAt(data, 10, true) == Entry(256, 16, 22);
    assert IfdEntryAt(data, 22, true) == Entry(257, 32, 34);
  }

  /** `decodeWebPWidth` on the 27 bytes after the signature; the
      bytes are already the unsigned values `and 0xff` produces. */
  function DecodeWebPWidth(bytes: seq<Byte>): (w: int)
    requires |bytes| == 27
    ensures w == LittleEndian(bytes[23..25]) && 0 <= w < 0x1_0000
  {
    LittleEndianTwo(bytes[23..25]);
    bytes[24] as int * 256 + bytes[23]
  }

  lemma LittleEndianTwo(s: seq<Byte>)
    requires |s| == 2
    ensures LittleEndian(s) == s[1] as int * 256 + s[0]
  {
    assert LittleEndian(s[1..]) == s[1] + 256 * LittleEndian(s[1..][1..]);
    assert s[1..][1..] == [];
  }

  /** `decodeWebPHeight` on the 27 bytes after the signature. */
  function DecodeWebPHeight(bytes: seq<Byte>): (h: int)
    requires |bytes| == 27
    ensures h == LittleEndian(bytes[25..27]) && 0 <= h < 0x1_0000
  {
    LittleEndianTwo(bytes[25..27]);
    bytes[26] as int * 256 + bytes[25]
  }

  /** `processStream` on a fresh object: read three bytes, then the branch
      of the first signature that matches. Fewer than two bytes match no
      signature; a JPEG signature always gives JPEG, and TIFF comes with
      both dimensions. */
  function Sniff(data: seq<Byte>): (r: Sniffed)
    ensures r.Parsed? && r.info.mimeType.Some? ==>
      r.info.mimeType.value in {"image/gif", "image/jpeg", "image/png", "image/bmp", "image/webp", "image/tiff"}
    ensures r.Parsed? && r.info.mimeType == Some("image/tiff") ==> r.info.width != -1 && r.info.height != -1
    ensures |data| >= 2 && IsJpg(data[0], data[1]) && r.Parsed? ==> r.info.mimeType == Some("image/jpeg")
    ensures |data| < 2 ==> r == Parsed(Info(None, -1, -1))
  {
    var (c1, p1) := ReadAt(data, 0);
    var (c2, p2) := ReadAt(data, p1);
    var (c3, p3) := ReadAt(data, p2);
    if IsGif(c1, c2, c3) then GifInfo(data, p3)
    else if IsJpg(c1, c2) then JpegWalk(data, p3, c3, -1, -1)
    else if IsPng(c1, c2, c3) then FixedDimensions(data, p3, true, "image/png")
    else if IsBmp(c1, c2) then FixedDimensions(data, p3, false, "image/bmp")
    else if IsWebP(c1, c2, c3) then WebPInfo(data, p3)
    else OtherFormats(data, p3, c1, c2, c3, -1, -1)
  }

  /** The GIF branch after the signature: skip the version, then width and
      height little-endian. */
  function GifInfo(data: seq<Byte>, pos: nat): Sniffed
    requires pos <= |data|
  {
    var p := SkipAt(data, pos, 3);
    if p + 4 > |data| then Truncated
    else Parsed(Info(Some("image/gif"), ReadIntAt(data, p, 2, false), ReadIntAt(data, p + 2, 2, false)))
  }

  /** The WebP branch after the signature: 27 bytes read into a zeroed
      array, and the two decoders on them. */
  function WebPInfo(data: seq<Byte>, pos: nat): Sniffed
    requires pos <= |data|
  {
    var bytes := ReadArrayAt(data, pos, 27).0;
    Parsed(Info(Some("image/webp"), DecodeWebPWidth(bytes), DecodeWebPHeight(bytes)))
  }

  // ---------------------------------------------------------------------
  // What the formats say

  lemma ReadIntAtSmall(data: seq<Byte>, pos: nat, bigEndian: bool)
    requires pos + 2 <= |data|
    ensures ReadIntAt(data, pos, 2, bigEndian) == if bigEndian then data[pos] as int * 256 + data[pos + 1] else data[pos + 1] as int * 256 + data[pos]
  {
    var s := data[pos..pos + 2];
    assert s[..1] == [data[pos]] && s[1..] == [data[pos + 1]];
    assert BigEndian(s[..1]) == data[pos];
    assert LittleEndian(s[1..]) == data[pos + 1];
  }

  /** GIF: the logical screen width and height, little-endian at bytes 6-7
      and 8-9 (section 18 of the GIF89a specification). */
  lemma GifDimensions(data: seq<Byte>)
    requires |data| >= 10 && IsGif(data[0], data[1], data[2])
    ensures Sniff(data) == Parsed(Info(Some("image/gif"), data[7] as int * 256 + data[6], data[9] as int * 256 + data[8]))
  {
    ReadIntAtSmall(data, 6, false);
    ReadIntAtSmall(data, 8, false);
  }

  /** PNG: the low halves of the IHDR width and height, big-endian at
      bytes 18-19 and 22-23 (section 11.2.2 of the PNG specification); BMP
      reads the same offsets little-endian. */
  lemma PngAndBmpDimensions(data: seq<Byte>)
    requires |data| >= 24
    ensures IsPng(data[0], data[1], data[2]) ==>
      Sniff(data) == Parsed(Info(Some("image/png"), data[18] as int * 256 + data[19], data[22] as int * 256 + data[23]))
    ensures IsBmp(data[0], data[1]) ==>
      Sniff(data) == Parsed(Info(Some("image/bmp"), data[19] as int * 256 + data[18], data[23] as int * 256 + data[22]))
  {
    ReadIntAtSmall(data, 18, true);
    ReadIntAtSmall(data, 22, true);
    ReadIntAtSmall(data, 18, false);
    ReadIntAtSmall(data, 22, false);
  }

  /** WebP: width and height little-endian at bytes 26-27 and 28-29, where
      the frame size of a VP8 key frame sits (section 9.1 of RFC 6386). A
      file too short for them gives zeros in their place. */
  lemma WebPDimensions(data: seq<Byte>)
    requires |data| >= 3 && IsWebP(data[0], data[1], data[2])
    ensures |data| >= 30 ==>
      Sniff(data) == Parsed(Info(Some("image/webp"), data[27] as int * 256 + data[26], data[29] as int * 256 + data[28]))
    ensures |data| <= 26 ==> Sniff(data) == Parsed(Info(Some("image/webp"), 0, 0))
    ensures Sniff(data) == Parsed(Info(Some("image/webp"),
      ByteOrZero(data, 27) * 256 + ByteOrZero(data, 26), ByteOrZero(data, 29) * 256 + ByteOrZero(data, 28)))
  {
    var bytes := ReadArrayAt(data, 3, 27).0;
    assert forall i :: 0 <= i < 27 ==> bytes[i] == ByteOrZero(data, i + 3);
  }

  /** Byte `i` of the data, or 0 past its end: what a partial `read` leaves
      in a zeroed array. */
  function ByteOrZero(data: seq<Byte>, i: nat): Byte {
    if i < |data| then data[i] else 0
  }

  /** A JPEG whose first segment is SOF0..SOF2: the height and then the
      width, big-endian, after the segment length and the precision byte
      (section B.2.2 of ITU-T T.81). */
  lemma JpegFirstSegmentDimensions(data: seq<Byte>)
    requires |data| >= 11 && IsJpg(data[0], data[1]) && data[2] == 0xFF
    requires data[3] == 0xC0 || data[3] == 0xC1 || data[3] == 0xC2
    ensures Sniff(data) == Parsed(Info(Some("image/jpeg"), data[9] as int * 256 + data[10], data[7] as int * 256 + data[8]))
  {
    ReadIntAtSmall(data, 7, true);
    ReadIntAtSmall(data, 9, true);
  }

  // ---------------------------------------------------------------------
  // The imperative code

  /** A `ByteArrayInputStream`: the bytes and the read position. */
  class ByteStream {
    const data: seq<Byte>
    var pos: nat

    ghost predicate Valid()
      reads this
    {
      pos <= |data|
    }

    constructor (bytes: seq<Byte>)
      ensures data == bytes && pos == 0 && Valid()
    {
      data := bytes;
      pos := 0;
    }

    /** `read()`. */
    method Read() returns (b: int)
      requires Valid()
      modifies this
      ensures Valid() && (b, pos) == ReadAt(data, old(pos))
    {
      if pos < |data| {
        b := data[pos];
        pos := pos + 1;
      } else {
        b := -1;
      }
    }

    /** `skip(n)`: returns how far it moved. */
    method Skip(n: int) returns (skipped: int)
      requires Valid()
      modifies this
      ensures Valid() && pos == SkipAt(data, old(pos), n) && skipped == pos - old(pos)
    {
      var k := |data| - pos;
      if n < k {
        k := if n < 0 then 0 else n;
      }
      pos := pos + k;
      skipped := k;
    }

    /** `read(bytes)`: copies as many bytes as remain, up to the array's
        length, to its front; -1 when none remain. */
    method ReadInto(bytes: array<Byte>) returns (count: int)
      requires Valid() && bytes.Length > 0
      modifies this, bytes
      ensures Valid()
      ensures var k := pos - old(pos);
        && old(pos) + k <= |data| && k <= bytes.Length
        && (k == bytes.Length || pos == |data|)
        && bytes[..] == data[old(pos)..pos] + old(bytes[k..])
        && count == if k == 0 then -1 else k
    {
      if pos >= |data| {
        return -1;
      }
      var k := |data| - pos;
      if bytes.Length < k {
        k := bytes.Length;
      }
      forall i | 0 <= i < k {
        bytes[i] := data[pos + i];
      }
      pos := pos + k;
      count := k;
    }

    /** `readInt(n, bigEndian)`: n bytes ORed into place, the shift going
        down from 8(n-1) or up from 0. The lanes do not overlap, so the OR
        is a sum; the result is the Kotlin `Int` of the bits. */
    method ReadInt(n: nat, bigEndian: bool) returns (v: int)
      requires Valid() && pos + n <= |data| && n <= 4
      modifies this
      ensures Valid() && pos == old(pos) + n
      ensures v == ReadIntAt(data, old(pos), n, bigEndian)
    {
      ghost var start := pos;
      var ret := 0;
      var sv: int := if bigEndian then (n - 1) * 8 else 0;
      var cnt := if bigEndian then -8 else 8;
      for i := 0 to n
        invariant Valid() && pos == start + i
        invariant sv == if bigEndian then 8 * (n - 1 - i) else 8 * i
        invariant ret == Lanes(data[start..pos], n, bigEndian)
      {
        ghost var prefix := data[start..pos];
        var b := Read();
        assert data[start..pos] == prefix + [b];
        LanesStep(prefix, b, n, bigEndian);
        ret := ret + b * Pow2(sv);
        sv := sv + cnt;
      }
      LanesComplete(data[start..pos], bigEndian);
      v := ToInt32(ret);
    }
  }

  /** The body of the IFD loop up to the tag switch: one entry read. */
  method ReadEntry(istr: ByteStream, bigEndian: bool) returns (tag: int, valOffset: int)
    requires istr.Valid() && EntryFits(istr.data, istr.pos, bigEndian)
    modifies istr
    ensures istr.Valid() && Entry(tag, valOffset, istr.pos) == EntryAt(istr.data, old(istr.pos), bigEndian)
  {
    tag := istr.ReadInt(2, bigEndian);
    var fieldType := istr.ReadInt(2, bigEndian);
    if fieldType == 3 || fieldType == 8 {
      valOffset := istr.ReadInt(2, bigEndian);
      var _ := istr.Skip(2);
    } else {
      valOffset := istr.ReadInt(4, bigEndian);
    }
  }

  /** A `FastImageInfo`: the fields `processStream` fills in. */
  class FastImageInfo {
    var height: int
    var width: int
    var mimeType: Option<string>

    constructor ()
      ensures height == -1 && width == -1 && mimeType == None
    {
      height := -1;
      width := -1;
      mimeType := None;
    }

    /** `processStream`; `thrown` is the `IOException` of an unsupported
        input, raised after the branch ran and left `mimeType` unset. */
    method ProcessStream(istr: ByteStream) returns (thrown: bool)
      requires istr.Valid() && istr.pos == 0 && Sniff(istr.data).Parsed?
      requires width == -1 && height == -1 && mimeType == None
      modifies this, istr
      ensures Info(mimeType, width, height) == Sniff(istr.data).info
      ensures thrown <==> mimeType == None
    {
      ghost var sniffed := Sniff(istr.data);
      var c1 := istr.Read();
      var c2 := istr.Read();
      var c3 := istr.Read();
      var found: Option<string>;
      if IsGif(c1, c2, c3) {
        found := ReadGif(istr);
      } else if IsJpg(c1, c2) {
        var mime := HandleJpg(istr, c3);
        found := Some(mime);
      } else if IsPng(c1, c2, c3) {
        found := ReadFixed(istr, true, "image/png");
      } else if IsBmp(c1, c2) {
        found := ReadFixed(istr, false, "image/bmp");
      } else if IsWebP(c1, c2, c3) {
        found := ReadWebP(istr);
      } else {
        found := HandleOtherFormats(istr, c1, c2, c3);
      }
      assert sniffed == Parsed(Info(found, width, height));
      if found.Some? {
        mimeType := found;
      }
      thrown := found.None?;
    }

    /** The GIF branch of `processStream`. */
    method ReadGif(istr: ByteStream) returns (found: Option<string>)
      requires istr.Valid() && GifInfo(istr.data, istr.pos).Parsed?
      modifies this, istr
      ensures mimeType == old(mimeType)
      ensures GifInfo(istr.data, old(istr.pos)) == Parsed(Info(found, width, height))
    {
      var _ := istr.Skip(3);
      width := istr.ReadInt(2, false);
      height := istr.ReadInt(2, false);
      found := Some("image/gif");
    }

    /** The PNG and BMP branches of `processStream`, which differ only in
        byte order and MIME type. */
    method ReadFixed(istr: ByteStream, bigEndian: bool, mime: string) returns (found: Option<string>)
      requires istr.Valid() && FixedDimensions(istr.data, istr.pos, bigEndian, mime).Parsed?
      modifies this, istr
      ensures mimeType == old(mimeType)
      ensures FixedDimensions(istr.data, old(istr.pos), bigEndian, mime) == Parsed(Info(found, width, height))
    {
      var _ := istr.Skip(15);
      width := istr.ReadInt(2, bigEndian);
      var _ := istr.Skip(2);
      height := istr.ReadInt(2, bigEndian);
      found := Some(mime);
    }

    /** The WebP branch of `processStream`. */
    method ReadWebP(istr: ByteStream) returns (found: Option<string>)
      requires istr.Valid()
      modifies this, istr
      ensures mimeType == old(mimeType)
      ensures WebPInfo(istr.data, old(istr.pos)) == Parsed(Info(found, width, height))
    {
      var bytes := new Byte[27](_ => 0);
      var _ := istr.ReadInto(bytes);
      width := DecodeWebPWidth(bytes[..]);
      height := DecodeWebPHeight(bytes[..]);
      found := Some("image/webp");
    }

    /** `handleJpg`. */
    method HandleJpg(istr: ByteStream, c3: int) returns (mime: string)
      requires istr.Valid() && JpegWalk(istr.data, istr.pos, c3, width, height).Parsed?
      modifies this, istr
      ensures mimeType == old(mimeType)
      ensures JpegWalk(istr.data, old(istr.pos), c3, old(width), old(height)) == Parsed(Info(Some(mime), width, height))
    {
      ghost var target := JpegWalk(istr.data, istr.pos, c3, width, height);
      var currentByte := c3;
      while currentByte == 255
        invariant istr.Valid() && mimeType == old(mimeType)
        invariant JpegWalk(istr.data, istr.pos, currentByte, width, height) == target
        invariant target.Parsed?
        decreases |istr.data| - istr.pos
      {
        var frame;
        currentByte, frame := JpegSegment(istr);
        if frame {
          return "image/jpeg";
        }
      }
      return "image/jpeg";
    }

    /** One pass of `handleJpg`'s loop on a 0xFF byte: the marker and the
        segment length; a frame header sets the height and width and ends
        the walk, any other segment is skipped and the next byte read. */
    method JpegSegment(istr: ByteStream) returns (next: int, frame: bool)
      requires istr.Valid() && JpegWalk(istr.data, istr.pos, 255, width, height).Parsed?
      modifies this, istr
      ensures istr.Valid() && mimeType == old(mimeType) && old(istr.pos) < istr.pos
      ensures frame ==> JpegWalk(istr.data, old(istr.pos), 255, old(width), old(height)) == Parsed(Info(Some("image/jpeg"), width, height))
      ensures !frame ==> JpegWalk(istr.data, old(istr.pos), 255, old(width), old(height)) == JpegWalk(istr.data, istr.pos, next, width, height)
    {
      ghost var p0 := istr.pos;
      JpegStep(istr.data, p0, width, height);
      var marker := istr.Read();
      assert marker == istr.data[p0] && istr.pos == p0 + 1;
      var len := istr.ReadInt(2, true);
      if marker == 192 || marker == 193 || marker == 194 {
        JpegFrame(istr.data, p0, width, height);
        ReadFrameSize(istr);
        return 255, true;
      }
      var _ := istr.Skip(len - 2);
      JpegSkip(istr.data, p0, width, height, istr.pos);
      next := istr.Read();
      frame := false;
    }

    /** A frame header after its length: the precision byte skipped, then
        the height and the width, big-endian. */
    method ReadFrameSize(istr: ByteStream)
      requires istr.Valid() && SkipAt(istr.data, istr.pos, 1) + 4 <= |istr.data|
      modifies this, istr
      ensures istr.Valid() && mimeType == old(mimeType) && old(istr.pos) < istr.pos
      ensures var p2 := SkipAt(istr.data, old(istr.pos), 1);
        height == ReadIntAt(istr.data, p2, 2, true) && width == ReadIntAt(istr.data, p2 + 2, 2, true)
    {
      var _ := istr.Skip(1);
      height := istr.ReadInt(2, true);
      width := istr.ReadInt(2, true);
    }

    /** `handleOtherFormats`: the fourth byte, and the TIFF walk. */
    method HandleOtherFormats(istr: ByteStream, c1: int, c2: int, c3: int) returns (mime: Option<string>)
      requires istr.Valid() && OtherFormats(istr.data, istr.pos, c1, c2, c3, width, height).Parsed?
      modifies this, istr
      ensures mimeType == old(mimeType)
      ensures OtherFormats(istr.data, old(istr.pos), c1, c2, c3, old(width), old(height)) == Parsed(Info(mime, width, height))
    {
      ghost var start := istr.pos;
      var c4 := istr.Read();
      if IsTiff(c1, c2, c3, c4) {
        mime := HandleTiff(istr, c1 == 'M' as int);
        return;
      }
      assert OtherFormats(istr.data, start, c1, c2, c3, width, height) == Parsed(Info(None, width, height));
      return None;
    }

    /** The TIFF branch after the byte-order mark: the header read and the
        entry walk it leads to. */
    method HandleTiff(istr: ByteStream, bigEndian: bool) returns (mime: Option<string>)
      requires istr.Valid() && TiffFormat(istr.data, istr.pos, bigEndian, width, height).Parsed?
      modifies this, istr
      ensures mimeType == old(mimeType)
      ensures TiffFormat(istr.data, old(istr.pos), bigEndian, old(width), old(height)) == Parsed(Info(mime, width, height))
    {
      var entries := ReadTiffHeader(istr, bigEndian);
      mime := WalkEntries(istr, bigEndian, entries);
    }

    /** The IFD offset, the skip to it, and the entry count. */
    method ReadTiffHeader(istr: ByteStream, bigEndian: bool) returns (entries: int)
      requires istr.Valid() && istr.pos + 4 <= |istr.data|
      requires TiffCountAt(istr.data, istr.pos, bigEndian) + 2 <= |istr.data|
      modifies istr
      ensures istr.Valid()
      ensures istr.pos == TiffCountAt(istr.data, old(istr.pos), bigEndian) + 2
      ensures entries == ReadIntAt(istr.data, istr.pos - 2, 2, bigEndian) && 0 <= entries
    {
      var ifd := istr.ReadInt(4, bigEndian);
      var _ := istr.Skip(ToInt32(ifd - 8));
      ghost var countAt := istr.pos;
      entries := istr.ReadInt(2, bigEndian);
      ReadIntAtSmall(istr.data, countAt, bigEndian);
    }

    /** The `for (i in 1..entries)` loop of `handleOtherFormats`. */
    method WalkEntries(istr: ByteStream, bigEndian: bool, entries: int) returns (mime: Option<string>)
      requires istr.Valid() && 0 <= entries
      requires TiffEntries(istr.data, istr.pos, bigEndian, entries, width, height).Parsed?
      modifies this, istr
      ensures mimeType == old(mimeType)
      ensures TiffEntries(istr.data, old(istr.pos), bigEndian, entries, old(width), old(height)) == Parsed(Info(mime, width, height))
    {
      ghost var target := TiffEntries(istr.data, istr.pos, bigEndian, entries, width, height);
      for i := 1 to entries + 1
        invariant istr.Valid() && mimeType == old(mimeType)
        invariant TiffEntries(istr.data, istr.pos, bigEndian, entries - i + 1, width, height) == target
        invariant target.Parsed?
      {
        TiffStep(istr.data, istr.pos, bigEndian, entries - i + 1, width, height);
        var tag, valOffset := ReadEntry(istr, bigEndian);
        if tag == 256 {
          width := valOffset;
        } else if tag == 257 {
          height := valOffset;
        }
        if width != -1 && height != -1 {
          return Some("image/tiff");
        }
      }
      return None;
    }
  }

  /** The byte-array constructor: a stream over the bytes, then
      `processStream`; an unsupported input throws. */
  method FromBytes(bytes: seq<Byte>) returns (r: Result<FastImageInfo>)
    requires Sniff(bytes).Parsed?
    ensures r.Ok? || r.Err?
    ensures r.Err? <==> Sniff(bytes).info.mimeType.None?
    ensures r.Err? ==> r.error == "Unsupported image type"
    ensures r.Ok? ==> Info(r.value.mimeType, r.value.width, r.value.height) == Sniff(bytes).info
  {
    var istr := new ByteStream(bytes);
    var info := new FastImageInfo();
    var thrown := info.ProcessStream(istr);
    if thrown {
      return Err("Unsupported image type");
    }
    return Ok(info);
  }
}
