/** The two scanline loops of the lossy JPEG path (jpeg.rs): decoding every
    output row into one zeroed buffer of `stride * height` bytes, and handing
    the encoder, row after row, the buffer from that row's offset on. */
module JpegScanlines {
  import opened Common
  import opened MozJpeg

  /** Offset of row `r` in a buffer of rows `stride` bytes long. */
  function RowStart(r: nat, stride: nat): nat {
    r * stride
  }

  lemma RowStartStep(r: nat, stride: nat)
    ensures RowStart(r + 1, stride) == RowStart(r, stride) + stride
  {
  }

  lemma RowStartMonotone(r: nat, q: nat, stride: nat)
    requires r <= q
    ensures RowStart(r, stride) <= RowStart(q, stride)
  {
  }

  /** The `stride` bytes the decoder stores for one row. */
  function RowBytes(line: nat -> Byte, stride: nat): (row: seq<Byte>)
    ensures |row| == stride
    ensures forall k :: 0 <= k < stride ==> row[k] == line(k)
  {
    seq(stride, k requires 0 <= k => line(k))
  }

  /** The first `n` decoded rows, concatenated, each `stride` bytes long;
      the first abort of the decoder ends the loop. */
  function DecodedRows(lib: Library, input: seq<Byte>, header: Header, stride: nat, n: nat): (r: Native<seq<Byte>>)
    ensures r.Returned? ==> |r.value| == RowStart(n, stride)
    ensures !r.SlicePanic?
  {
    if n == 0 then Returned([])
    else
      var prev :- DecodedRows(lib, input, header, stride, n - 1);
      var line :- lib.readScanline(input, header, n - 1).Run();
      RowStartStep(n - 1, stride);
      Returned(prev + RowBytes(line, stride))
  }

  /** Every row the decoder produced lies at its offset in the buffer. */
  lemma {:induction false} DecodedRowAt(lib: Library, input: seq<Byte>, header: Header, stride: nat, n: nat, r: nat, k: nat)
    requires DecodedRows(lib, input, header, stride, n).Returned?
    requires r < n && k < stride
    ensures lib.readScanline(input, header, r).Done?
    ensures RowStart(r, stride) + k < RowStart(n, stride)
    ensures DecodedRows(lib, input, header, stride, n).value[RowStart(r, stride) + k]
            == lib.readScanline(input, header, r).value(k)
  {
    RowStartStep(n - 1, stride);
    if r < n - 1 {
      DecodedRowAt(lib, input, header, stride, n - 1, r, k);
    }
  }

  /** A complete decode read every row without an abort. */
  lemma {:induction false} DecodedRowsReturnedAt(lib: Library, input: seq<Byte>, header: Header, stride: nat, n: nat, r: nat)
    requires DecodedRows(lib, input, header, stride, n).Returned?
    requires r < n
    ensures lib.readScanline(input, header, r).Done?
  {
    if r < n - 1 {
      DecodedRowsReturnedAt(lib, input, header, stride, n - 1, r);
    }
  }

  /** Once the decoder aborts, every longer run aborts the same way. */
  lemma {:induction false} DecodedRowsStopAtAbort(lib: Library, input: seq<Byte>, header: Header, stride: nat, n: nat, m: nat)
    requires n <= m
    requires DecodedRows(lib, input, header, stride, n).IsFailure()
    ensures DecodedRows(lib, input, header, stride, m) == DecodedRows(lib, input, header, stride, n)
  {
    if n < m {
      DecodedRowsStopAtAbort(lib, input, header, stride, n, m - 1);
    }
  }

  /** The message code of the first row, from row `from` up to the image
      height, whose read aborts; none when every such row is read. */
  function FirstScanlineAbort(lib: Library, input: seq<Byte>, header: Header, from: nat): (code: Option<int>)
    decreases header.height - from
  {
    if from >= header.height then None
    else if lib.readScanline(input, header, from).Abort? then Some(lib.readScanline(input, header, from).msgCode)
    else FirstScanlineAbort(lib, input, header, from + 1)
  }

  /** The read loop fails exactly when some row's read aborts, and then
      with the code of the first such row. */
  lemma DecodedRowsFailIff(lib: Library, input: seq<Byte>, header: Header, stride: nat)
    ensures var d := DecodedRows(lib, input, header, stride, header.height);
      && (d.Returned? <==> FirstScanlineAbort(lib, input, header, 0).None?)
      && (d.ErrorExit? ==> d.msgCode == FirstScanlineAbort(lib, input, header, 0).value)
  {
    DecodedRowsFrom(lib, input, header, stride, 0);
  }

  lemma {:induction false} DecodedRowsFrom(lib: Library, input: seq<Byte>, header: Header, stride: nat, from: nat)
    requires from <= header.height
    requires DecodedRows(lib, input, header, stride, from).Returned?
    ensures var d := DecodedRows(lib, input, header, stride, header.height);
      && (FirstScanlineAbort(lib, input, header, from).None? ==> d.Returned?)
      && (FirstScanlineAbort(lib, input, header, from).Some? ==>
            d == ErrorExit(FirstScanlineAbort(lib, input, header, from).value))
    decreases header.height - from
  {
    if from < header.height {
      if lib.readScanline(input, header, from).Abort? {
        DecodedRowsStopAtAbort(lib, input, header, stride, from + 1, header.height);
      } else {
        DecodedRowsFrom(lib, input, header, stride, from + 1);
      }
    }
  }

  /** The read loop: a buffer of `stride * height` zero bytes, and row `r`
      decoded into it at offset `r * stride` while rows remain. */
  method ReadScanlines(lib: Library, input: seq<Byte>, header: Header, stride: nat) returns (r: Native<seq<Byte>>)
    ensures r == DecodedRows(lib, input, header, stride, header.height)
  {
    var buffer := new Byte[RowStart(header.height, stride)];
    var row: nat := 0;
    while row < header.height
      invariant row <= header.height
      invariant DecodedRows(lib, input, header, stride, row).Returned?
      invariant buffer[..RowStart(row, stride)] == DecodedRows(lib, input, header, stride, row).value
    {
      var line := lib.readScanline(input, header, row);
      if line.Abort? {
        DecodedRowsStopAtAbort(lib, input, header, stride, row + 1, header.height);
        return ErrorExit(line.msgCode);
      }
      var offset := RowStart(row, stride);
      RowStartStep(row, stride);
      RowStartMonotone(row + 1, header.height, stride);
      ghost var prev := DecodedRows(lib, input, header, stride, row).value;
      StoreRow(buffer, offset, RowBytes(line.value, stride));
      assert buffer[..offset + stride] == buffer[..offset] + buffer[offset..offset + stride];
      assert DecodedRows(lib, input, header, stride, row + 1) == Returned(prev + RowBytes(line.value, stride));
      row := row + 1;
    }
    assert buffer[..] == buffer[..RowStart(header.height, stride)];
    return Returned(buffer[..]);
  }

  /** `jpeg_read_scanlines` storing one row: the bytes land at `offset`,
      and nothing before them changes. */
  method StoreRow(buffer: array<Byte>, offset: nat, bytes: seq<Byte>)
    requires offset + |bytes| <= buffer.Length
    modifies buffer
    ensures buffer[..offset] == old(buffer[..offset])
    ensures buffer[offset..offset + |bytes|] == bytes
  {
    forall k | 0 <= k < |bytes| {
      buffer[offset + k] := bytes[k];
    }
  }

  /** The rows the write loop hands to the encoder: row `r` is the buffer
      from offset `r * stride` on. The loop stops with a slice panic at the
      first row whose offset lies past the end of the buffer. */
  function SlicedRows(buf: seq<Byte>, stride: nat, height: nat): (rows: seq<seq<Byte>>)
    ensures |rows| <= height
    ensures forall r :: 0 <= r < |rows| ==> RowStart(r, stride) <= |buf| && rows[r] == buf[RowStart(r, stride)..]
    ensures |rows| < height ==> RowStart(|rows|, stride) > |buf|
  {
    if height == 0 then []
    else
      var prev := SlicedRows(buf, stride, height - 1);
      if |prev| < height - 1 || RowStart(height - 1, stride) > |buf| then prev
      else prev + [buf[RowStart(height - 1, stride)..]]
  }

  /** Past the panicking row nothing more is sliced. */
  lemma {:induction false} SlicedRowsStop(buf: seq<Byte>, stride: nat, n: nat, m: nat)
    requires n <= m
    requires |SlicedRows(buf, stride, n)| < n
    ensures SlicedRows(buf, stride, m) == SlicedRows(buf, stride, n)
  {
    if n < m {
      SlicedRowsStop(buf, stride, n, m - 1);
    }
  }

  /** The write loop: row after row, from 0 up to the height, the buffer
      from that row's offset on; a slice panic ends it early. */
  method WriteScanlines(buffer: array<Byte>, stride: nat, height: nat) returns (rows: seq<seq<Byte>>)
    ensures rows == SlicedRows(buffer[..], stride, height)
  {
    rows := [];
    var next: nat := 0;
    while next < height
      invariant next <= height
      invariant |rows| == next
      invariant rows == SlicedRows(buffer[..], stride, next)
    {
      var offset := RowStart(next, stride);
      if offset > buffer.Length {
        assert SlicedRows(buffer[..], stride, next + 1) == rows;
        SlicedRowsStop(buffer[..], stride, next + 1, height);
        return;
      }
      rows := rows + [buffer[offset..]];
      next := next + 1;
    }
  }

  /** The write loop panics exactly when some row's offset, the last one's
      being the largest, lies past the end of the buffer. */
  lemma SlicedRowsCompleteIff(buf: seq<Byte>, stride: nat, height: nat)
    ensures |SlicedRows(buf, stride, height)| == height
            <==> height == 0 || RowStart(height - 1, stride) <= |buf|
  {
    var rows := SlicedRows(buf, stride, height);
    if |rows| < height {
      RowStartMonotone(|rows|, height - 1, stride);
    }
  }

  /** Written back with the stride it was read with, every decoded row is
      handed over. */
  lemma AllRowsHandedOver(lib: Library, input: seq<Byte>, header: Header, stride: nat)
    requires DecodedRows(lib, input, header, stride, header.height).Returned?
    ensures |SlicedRows(DecodedRows(lib, input, header, stride, header.height).value, stride, header.height)| == header.height
  {
    var n := header.height;
    var buf := DecodedRows(lib, input, header, stride, n).value;
    SlicedRowsCompleteIff(buf, stride, n);
    if n > 0 {
      RowStartMonotone(n - 1, n, stride);
    }
  }

  /** Written back with the stride it was read with, the decoded buffer is
      handed over whole, and each row the encoder receives begins with the
      bytes the decoder produced for that row. With a wider write stride
      (more input components than output components) and two or more rows,
      the write loop panics. */
  lemma {:induction false} RowsRoundTrip(lib: Library, input: seq<Byte>, header: Header, stride: nat, r: nat)
    requires DecodedRows(lib, input, header, stride, header.height).Returned?
    requires r < header.height
    ensures lib.readScanline(input, header, r).Done?
    ensures var buf := DecodedRows(lib, input, header, stride, header.height).value;
      var rows := SlicedRows(buf, stride, header.height);
      && |rows| == header.height
      && |rows[r]| >= stride
      && rows[r][..stride] == RowBytes(lib.readScanline(input, header, r).value, stride)
  {
    var n := header.height;
    var buf := DecodedRows(lib, input, header, stride, n).value;
    AllRowsHandedOver(lib, input, header, stride);
    var rows := SlicedRows(buf, stride, n);
    RowStartMonotone(r + 1, n, stride);
    RowStartStep(r, stride);
    if stride > 0 {
      DecodedRowAt(lib, input, header, stride, n, r, 0);
    } else {
      assert lib.readScanline(input, header, r).Done? by {
        DecodedRowsReturnedAt(lib, input, header, stride, n, r);
      }
    }
    var line := lib.readScanline(input, header, r).value;
    assert rows[r] == buf[RowStart(r, stride)..];
    forall k | 0 <= k < stride
      ensures rows[r][k] == RowBytes(line, stride)[k]
    {
      DecodedRowAt(lib, input, header, stride, n, r, k);
    }
  }

  /** A write stride wider than the read stride runs off the buffer: with
      `height` rows of `readStride` bytes, row `height - 1` starts past the
      end as soon as there are enough rows. */
  lemma WiderWriteStridePanics(readStride: nat, writeStride: nat, height: nat)
    requires readStride < writeStride
    requires height >= 2 && RowStart(height - 1, writeStride - readStride) > readStride
    ensures |SlicedRows(seq(RowStart(height, readStride), _ => 0), writeStride, height)| < height
  {
    var buf: seq<Byte> := seq(RowStart(height, readStride), _ => 0);
    assert RowStart(height - 1, writeStride) == RowStart(height - 1, readStride) + RowStart(height - 1, writeStride - readStride);
    RowStartStep(height - 1, readStride);
    SlicedRowsCompleteIff(buf, writeStride, height);
  }
}
