/** The per-file step of the extractor: find the first JPEG start-of-image
    marker FF D8 and the last end-of-image marker FF D9 (the SOI and EOI
    markers of ITU-T T.81, Annex B, Table B.1) and keep the bytes from the
    start marker up to, but not including, the end marker. */
module JpegExtraction {
  import opened ByteSearch

  /** Start-of-image marker. */
  const SOI: seq<Byte> := [0xFF, 0xD8]
  /** End-of-image marker. */
  const EOI: seq<Byte> := [0xFF, 0xD9]

  /** Why a snapshot yields no image. Program.cs throws the same exception
      for all three and only reports the file as failed. */
  datatype Failure = NoStartMarker | NoEndMarker | InvalidRange

  datatype Extraction = Jpeg(bytes: seq<Byte>) | Error(reason: Failure)

  /** The marker lookups, the range check and the slice
      `data.Skip(start).Take(end - start)`. */
  function Extract(data: seq<Byte>): Extraction
  {
    var start := FindByteSequence(data, SOI, 1);
    if start == -1 then Error(NoStartMarker)
    else
      var end := FindByteSequence(data, EOI, -1);
      if end == -1 then Error(NoEndMarker)
      else if end <= start then Error(InvalidRange)
      else Jpeg(data[start..end])
  }

  /** The three ways a snapshot fails and the one way it succeeds, stated on
      the marker occurrences alone: no start marker; a start marker but no
      end marker; every end marker before every start marker; otherwise an
      image. */
  lemma ExtractOutcome(data: seq<Byte>)
    ensures Extract(data) == Error(NoStartMarker) <==> forall i :: !OccursAt(data, SOI, i)
    ensures Extract(data) == Error(NoEndMarker) <==>
      (exists i :: OccursAt(data, SOI, i)) && forall j :: !OccursAt(data, EOI, j)
    ensures Extract(data) == Error(InvalidRange) <==>
      (exists i :: OccursAt(data, SOI, i)) && (exists j :: OccursAt(data, EOI, j)) &&
      forall i, j :: OccursAt(data, SOI, i) && OccursAt(data, EOI, j) ==> j < i
    ensures Extract(data).Jpeg? <==> exists i, j :: OccursAt(data, SOI, i) && OccursAt(data, EOI, j) && i < j
  {
  }

  /** On success the image runs from the first start marker to the last end
      marker: it starts with FF D8, lies inside the buffer, leaves out the two
      bytes of the final FF D9, and no wider such span exists. */
  lemma JpegBounds(data: seq<Byte>)
    requires Extract(data).Jpeg?
    ensures var s, e := FindByteSequence(data, SOI, 1), FindByteSequence(data, EOI, -1);
      && 0 <= s && s + 2 <= e && e + 2 <= |data|
      && Extract(data).bytes == data[s..e]
      && |Extract(data).bytes| >= 2
      && Extract(data).bytes[..2] == SOI
      && Extract(data).bytes + EOI == data[s..e + 2]
      && (forall i :: i < s ==> !OccursAt(data, SOI, i))
      && (forall j :: e < j ==> !OccursAt(data, EOI, j))
  {
    var s, e := FindByteSequence(data, SOI, 1), FindByteSequence(data, EOI, -1);
    // the second byte of the start marker (D8) cannot be the first byte of the end marker (FF)
    assert data[s..s + 2][1] == data[s + 1] == 0xD8;
    assert data[e..e + 2][0] == data[e] == 0xFF;
  }

  /** Extraction in terms of any first start marker position s and last end
      marker position e. */
  lemma ExtractFromMarkerPositions(data: seq<Byte>, s: int, e: int)
    requires OccursAt(data, SOI, s) && forall i :: i < s ==> !OccursAt(data, SOI, i)
    requires OccursAt(data, EOI, e) && forall j :: e < j ==> !OccursAt(data, EOI, j)
    ensures s != e
    ensures Extract(data) == if e < s then Error(InvalidRange) else Jpeg(data[s..e])
  {
  }

  /** The image ends before the trailing FF D9. */
  lemma ExtractDropsEndMarker()
    ensures Extract([0x00, 0xFF, 0xD8, 0x11, 0x22, 0xFF, 0xD9, 0x00]) == Jpeg([0xFF, 0xD8, 0x11, 0x22])
  {
    var data: seq<Byte> := [0x00, 0xFF, 0xD8, 0x11, 0x22, 0xFF, 0xD9, 0x00];
    assert OccursAt(data, SOI, 1) && OccursAt(data, EOI, 5);
    assert !OccursAt(data, SOI, 0) by { assert data[0..2][0] == 0x00; }
    assert !OccursAt(data, EOI, 6) by { assert data[6..8][0] == 0xD9; }
    ExtractFromMarkerPositions(data, 1, 5);
  }

  /** An end marker before the only start marker is an invalid range. */
  lemma ExtractRejectsReversedMarkers()
    ensures Extract([0xFF, 0xD9, 0xFF, 0xD8]) == Error(InvalidRange)
  {
    var data: seq<Byte> := [0xFF, 0xD9, 0xFF, 0xD8];
    assert OccursAt(data, SOI, 2) && OccursAt(data, EOI, 0);
    assert !OccursAt(data, SOI, 0) by { assert data[0..2][1] == 0xD9; }
    assert !OccursAt(data, SOI, 1) by { assert data[1..3][0] == 0xD9; }
    assert !OccursAt(data, EOI, 1) by { assert data[1..3][0] == 0xD9; }
    assert !OccursAt(data, EOI, 2) by { assert data[2..4][1] == 0xD8; }
    ExtractFromMarkerPositions(data, 2, 0);
  }

  /** Of two end markers the last one bounds the image. */
  lemma ExtractUsesLastEndMarker()
    ensures Extract([0xFF, 0xD8, 0xFF, 0xD9, 0x99, 0xFF, 0xD9]) == Jpeg([0xFF, 0xD8, 0xFF, 0xD9, 0x99])
  {
    var data: seq<Byte> := [0xFF, 0xD8, 0xFF, 0xD9, 0x99, 0xFF, 0xD9];
    assert OccursAt(data, SOI, 0) && OccursAt(data, EOI, 5);
    ExtractFromMarkerPositions(data, 0, 5);
  }
}
