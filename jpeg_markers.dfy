/** Metadata markers in the JPEG pipeline (jpeg.rs): which marker kinds the
    decoder is asked to keep, and the walk over the decoder's marker list
    that writes each kept marker into the encoder. */
module JpegMarkers {
  import opened Common

  /** A marker segment the decoder kept (`jpeg_marker_struct`): its code and
      its payload. */
  datatype Marker = Marker(code: Byte, data: seq<Byte>)

  /** One `jpeg_save_markers(cinfo, code, length_limit)` request. */
  datatype SaveRequest = SaveRequest(code: int, lengthLimit: int)

  /** COM, the comment marker (table B.1 of ITU-T T.81). */
  const ComMarker := 0xFE
  /** APP0; APPn is `ComMarker`'s neighbour range 0xE0..0xEF. */
  const App0Marker := 0xE0
  /** The largest payload a marker segment can carry. */
  const MaxMarkerLength := 0xFFFF

  /** The requests made when metadata is kept: COM first, then APP0..APP15
      in order, each keeping up to 0xFFFF bytes. */
  function MetadataSaveRequests(): (reqs: seq<SaveRequest>)
    ensures |reqs| == 17
    ensures reqs[0] == SaveRequest(ComMarker, MaxMarkerLength)
    ensures forall m :: 1 <= m < 17 ==> reqs[m] == SaveRequest(App0Marker + m - 1, MaxMarkerLength)
  {
    [SaveRequest(ComMarker, MaxMarkerLength)]
      + seq(16, m => SaveRequest(App0Marker + m, MaxMarkerLength))
  }

  /** The requests made for a run: the metadata requests when metadata is
      kept, none otherwise. */
  function SaveRequestsFor(keepMetadata: bool): seq<SaveRequest> {
    if keepMetadata then MetadataSaveRequests() else []
  }

  /** The codes a sequence of requests asks the decoder to keep. */
  function SavedCodes(reqs: seq<SaveRequest>): set<int> {
    set i | 0 <= i < |reqs| :: reqs[i].code
  }

  /** The kept markers are exactly COM and APP0..APP15: 17 kinds, each
      requested once and each with the full length limit. */
  lemma MetadataCodesAreComAndApp(c: int)
    ensures c in SavedCodes(MetadataSaveRequests()) <==> c == ComMarker || App0Marker <= c <= App0Marker + 15
    ensures forall i, j :: 0 <= i < j < 17 ==> MetadataSaveRequests()[i].code != MetadataSaveRequests()[j].code
    ensures forall i :: 0 <= i < 17 ==> MetadataSaveRequests()[i].lengthLimit == MaxMarkerLength
  {
    var reqs := MetadataSaveRequests();
    if c == ComMarker {
      assert reqs[0].code == c;
    } else if App0Marker <= c <= App0Marker + 15 {
      assert reqs[c - App0Marker + 1].code == c;
    }
    forall i, j | 0 <= i < j < 17
      ensures reqs[i].code != reqs[j].code
    {
      assert reqs[j] == SaveRequest(App0Marker + (j - 1), MaxMarkerLength);
      if i > 0 {
        assert reqs[i] == SaveRequest(App0Marker + (i - 1), MaxMarkerLength);
      }
    }
    forall i | 0 <= i < 17
      ensures reqs[i].lengthLimit == MaxMarkerLength
    {
      if i > 0 {
        assert reqs[i] == SaveRequest(App0Marker + (i - 1), MaxMarkerLength);
      }
    }
  }

  /** Without metadata nothing is requested, so no marker kind is kept. */
  lemma NoMarkersWithoutMetadata()
    ensures SavedCodes(SaveRequestsFor(false)) == {}
  {
  }

  /** The decoder's marker-saving state: the requests made so far. */
  class Decompressor {
    var saveRequests: seq<SaveRequest>

    constructor ()
      ensures saveRequests == []
    {
      saveRequests := [];
    }

    /** `jpeg_save_markers`. */
    method SaveMarkers(code: int, lengthLimit: int)
      modifies this
      ensures saveRequests == old(saveRequests) + [SaveRequest(code, lengthLimit)]
    {
      saveRequests := saveRequests + [SaveRequest(code, lengthLimit)];
    }

    /** The request block run when metadata is kept: COM, then a loop over
        APP0..APP15. */
    method SaveMetadataMarkers()
      modifies this
      ensures saveRequests == old(saveRequests) + MetadataSaveRequests()
    {
      SaveMarkers(ComMarker, MaxMarkerLength);
      for m := 0 to 16
        invariant saveRequests == old(saveRequests) + MetadataSaveRequests()[..m + 1]
      {
        SaveMarkers(App0Marker + m, MaxMarkerLength);
        assert MetadataSaveRequests()[..m + 2] == MetadataSaveRequests()[..m + 1] + [MetadataSaveRequests()[m + 1]];
      }
      assert MetadataSaveRequests()[..17] == MetadataSaveRequests();
    }
  }

  /** One node of the decoder's `marker_list`. `footprint` and `contents`
      are the nodes from here to the end and their markers, in list order. */
  class MarkerNode {
    var marker: Marker
    var next: MarkerNode?
    ghost var footprint: set<object>
    ghost var contents: seq<Marker>

    ghost predicate Valid()
      reads this, footprint
      decreases footprint
    {
      && this in footprint
      && (next == null ==> contents == [marker])
      && (next != null ==>
            && next in footprint && next.footprint <= footprint && this !in next.footprint
            && contents == [marker] + next.contents
            && next.Valid())
    }

    constructor (marker: Marker, next: MarkerNode?)
      requires next != null ==> next.Valid()
      ensures Valid() && this.marker == marker && this.next == next
      ensures next == null ==> contents == [marker] && footprint == {this}
      ensures next != null ==> contents == [marker] + next.contents && footprint == {this} + next.footprint
    {
      this.marker := marker;
      this.next := next;
      if next == null {
        footprint := {this};
        contents := [marker];
      } else {
        footprint := {this} + next.footprint;
        contents := [marker] + next.contents;
      }
    }
  }

  /** The markers a list starting at `head` holds. */
  ghost function ListContents(head: MarkerNode?): seq<Marker>
    reads head
  {
    if head == null then [] else head.contents
  }

  /** The encoder's marker output: the markers written so far, in order. */
  class Compressor {
    var written: seq<Marker>

    constructor ()
      ensures written == []
    {
      written := [];
    }

    /** `jpeg_write_marker`. */
    method WriteMarker(code: Byte, data: seq<Byte>)
      modifies this
      ensures written == old(written) + [Marker(code, data)]
    {
      written := written + [Marker(code, data)];
    }
  }

  /** `write_metadata`: follows `next` from the head of the decoder's list
      until null, writing each marker once, in list order. */
  method WriteMetadata(head: MarkerNode?, dst: Compressor)
    requires head != null ==> head.Valid() && dst !in head.footprint
    modifies dst
    ensures dst.written == old(dst.written) + ListContents(head)
  {
    var marker := head;
    while marker != null
      invariant marker != null ==> marker.Valid() && dst !in marker.footprint
      invariant dst.written + ListContents(marker) == old(dst.written) + ListContents(head)
      decreases |ListContents(marker)|
    {
      marker := WriteNode(marker, dst);
    }
  }

  /** One turn of `write_metadata`'s loop: write this node's marker and
      move on to the next node. */
  method WriteNode(node: MarkerNode, dst: Compressor) returns (next: MarkerNode?)
    requires node.Valid() && dst !in node.footprint
    modifies dst
    ensures next != null ==> next.Valid() && dst !in next.footprint
    ensures dst.written + ListContents(next) == old(dst.written) + ListContents(node)
    ensures |ListContents(next)| < |ListContents(node)|
  {
    var m := node.marker;
    NodeUnfolds(node);
    next := node.next;
    ghost var rest := ListContents(next);
    dst.WriteMarker(m.code, m.data);
    assert dst.written + rest == old(dst.written) + ([m] + rest);
  }

  /** A valid node holds its own marker, then its successor's list, and the
      successor's footprint is strictly smaller. */
  lemma NodeUnfolds(node: MarkerNode)
    requires node.Valid()
    ensures node.contents == [node.marker] + ListContents(node.next)
    ensures node.next != null ==> node.next.Valid() && node.next.footprint <= node.footprint
  {
  }

  /** The markers written into the output: the decoder's kept markers when
      metadata is kept, none otherwise. */
  function MarkersWritten(keepMetadata: bool, kept: seq<Marker>): (written: seq<Marker>)
    ensures keepMetadata ==> written == kept
    ensures !keepMetadata ==> written == []
  {
    if keepMetadata then kept else []
  }
}
