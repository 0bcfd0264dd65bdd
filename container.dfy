/** The Spoon Installer container: an opaque byte image in which LZMA segments
    are found only by scanning for their 5-byte header, and the per-segment
    header read that precedes each call to the LZMA codec. */
module Container {
  import opened Wrappers
  import opened LittleEndian

  /** LZMA_HEADER: the properties block every segment of the format starts with. */
  const LzmaHeader: seq<byte> := [0x5D, 0x00, 0x00, 0x80, 0x00]

  /** Properties block (5 bytes) followed by the int64 decompressed size. */
  const HeaderSize: nat := 13

  predicate IsMarkerAt(image: seq<byte>, o: int) {
    0 <= o && o + |LzmaHeader| <= |image| && image[o..o + |LzmaHeader|] == LzmaHeader
  }

  /** The marker cannot overlap itself: two occurrences start at least five bytes apart. */
  lemma MarkersDoNotOverlap(image: seq<byte>, a: int, b: int)
    requires IsMarkerAt(image, a) && IsMarkerAt(image, b) && a < b
    ensures b - a >= |LzmaHeader|
  {
    // the marker's first byte 0x5D never occurs among its other four
    assert image[b] == 0x5D by {
      assert image[b..b + 5][0] == image[b];
    }
    forall j | a < j < a + |LzmaHeader|
      ensures image[j] != 0x5D
    {
      assert image[a..a + 5][j - a] == image[j];
    }
  }

  /** Every marker occurrence at or after `from`, in ascending order. */
  function ScanFrom(image: seq<byte>, from: nat): (r: seq<nat>)
    decreases |image| - from
    ensures forall k :: 0 <= k < |r| ==> from <= r[k] && IsMarkerAt(image, r[k])
    ensures forall k, l :: 0 <= k < l < |r| ==> r[k] < r[l]
    ensures forall o :: from <= o && IsMarkerAt(image, o) ==> o in r
  {
    if from + |LzmaHeader| > |image| then []
    else if IsMarkerAt(image, from) then [from] + ScanFrom(image, from + 1)
    else ScanFrom(image, from + 1)
  }

  /** fileStream.FindAll(LZMA_HEADER): the offsets of all marker occurrences,
      strictly ascending. Because the marker does not overlap itself, this is
      also the result of any non-overlapping forward search. */
  function Scan(image: seq<byte>): (r: seq<nat>)
    ensures forall o :: o in r <==> IsMarkerAt(image, o)
    ensures forall k, l :: 0 <= k < l < |r| ==> r[k] < r[l]
  {
    ScanFrom(image, 0)
  }

  /** Neighbouring offsets leave room for at least a whole marker. */
  lemma ScanGaps(image: seq<byte>, k: nat)
    requires k + 1 < |Scan(image)|
    ensures Scan(image)[k + 1] - Scan(image)[k] >= |LzmaHeader|
  {
    var r := Scan(image);
    assert r[k] in r && r[k + 1] in r;
    MarkersDoNotOverlap(image, r[k], r[k + 1]);
  }

  /** The header DecompressLzma reads: Extract(5), then ReadInt64. */
  datatype SegmentHeader = SegmentHeader(properties: seq<byte>, decompressedSize: int)

  predicate WellFormedHeader(h: SegmentHeader) {
    |h.properties| == 5 && -TwoTo63 <= h.decompressedSize < TwoTo63
  }

  /** The header at offset o, or None when the stream ends before its 13 bytes
      (ReadInt64 then throws EndOfStreamException). */
  function ReadHeader(image: seq<byte>, o: nat): (r: Option<SegmentHeader>)
    ensures r.Some? <==> o + HeaderSize <= |image|
    ensures r.Some? ==> WellFormedHeader(r.value)
  {
    if o + HeaderSize <= |image| then
      Some(SegmentHeader(image[o..o + 5], Int64(image[o + 5..o + HeaderSize])))
    else None
  }

  /** The 13 bytes that encode a header; the inverse of ReadHeader. */
  function EncodeHeader(h: SegmentHeader): (r: seq<byte>)
    requires WellFormedHeader(h)
    ensures |r| == HeaderSize
  {
    h.properties + EncodeInt64(h.decompressedSize)
  }

  lemma ReadEncodedHeader(prefix: seq<byte>, h: SegmentHeader, rest: seq<byte>)
    requires WellFormedHeader(h)
    ensures ReadHeader(prefix + EncodeHeader(h) + rest, |prefix|) == Some(h)
  {
    var image := prefix + EncodeHeader(h) + rest;
    var o := |prefix|;
    assert image[o..o + 5] == h.properties;
    assert image[o + 5..o + HeaderSize] == EncodeInt64(h.decompressedSize);
    Int64OfEncode(h.decompressedSize);
  }

  lemma EncodeReadHeader(image: seq<byte>, o: nat)
    requires o + HeaderSize <= |image|
    ensures EncodeHeader(ReadHeader(image, o).value) == image[o..o + HeaderSize]
  {
    EncodeOfInt64(image[o + 5..o + HeaderSize]);
    assert image[o..o + 5] + image[o + 5..o + HeaderSize] == image[o..o + HeaderSize];
  }

  /** At a marker offset the properties block read is exactly LZMA_HEADER. */
  lemma HeaderAtMarker(image: seq<byte>, o: nat)
    requires IsMarkerAt(image, o) && o + HeaderSize <= |image|
    ensures ReadHeader(image, o).value.properties == LzmaHeader
    ensures ReadHeader(image, o).value.decompressedSize == Int64(image[o + 5..o + 13])
  {
  }

  /** What the LZMA decoder reports: the bytes it produced, or that it threw;
      either way how many input bytes it read. */
  datatype CodecResult = Produced(output: seq<byte>, consumed: nat) | Rejected(consumed: nat)

  /** The interface the codec keeps: it never reads past the end of its input,
      and when the declared size is non-negative a success yields exactly that
      many bytes (a negative size asks it to decode up to the end marker). */
  ghost predicate KeepsContract(codec: (seq<byte>, seq<byte>, int, int) -> CodecResult) {
    forall props: seq<byte>, input: seq<byte>, limit: int, size: int ::
      codec(props, input, limit, size).consumed <= |input| &&
      (codec(props, input, limit, size).Produced? && size >= 0 ==>
         |codec(props, input, limit, size).output| == size)
  }

  /** SetDecoderProperties + Code, as an oracle: (properties, the stream from the
      cursor on, compressed size, decompressed size) to a result. */
  type Codec = c: (seq<byte>, seq<byte>, int, int) -> CodecResult | KeepsContract(c)
    witness (props: seq<byte>, input: seq<byte>, limit: int, size: int) => Rejected(0)

  /** What one DecompressLzma call ends in. */
  datatype DecodeStatus = HeaderTruncated | CodecFailed | Decompressed(bytes: seq<byte>)

  /** DecompressLzma started with the cursor at o: the status and the cursor
      afterwards. A truncated header leaves the cursor at the end of the stream
      (or where it was, if that is already past the end). */
  function Decompress(image: seq<byte>, codec: Codec, o: nat, limit: int): (r: (DecodeStatus, nat))
    ensures r.0.HeaderTruncated? <==> o + HeaderSize > |image|
    ensures r.0.Decompressed? && Int64(image[o + 5..o + HeaderSize]) >= 0 ==>
              |r.0.bytes| == Int64(image[o + 5..o + HeaderSize])
    ensures r.1 <= if o <= |image| then |image| else o
    ensures !r.0.HeaderTruncated? ==> o + HeaderSize <= r.1
  {
    match ReadHeader(image, o)
    case None => (HeaderTruncated, if o <= |image| then |image| else o)
    case Some(h) =>
      var c := codec(h.properties, image[o + HeaderSize..], limit, h.decompressedSize);
      (if c.Produced? then Decompressed(c.output) else CodecFailed, o + HeaderSize + c.consumed)
  }

  /** Decoding at a marker hands the codec LZMA_HEADER as properties, the
      little-endian int64 at o+5 as size, and the stream from o+13 on. */
  lemma DecompressAtMarker(image: seq<byte>, codec: Codec, o: nat, limit: int)
    requires IsMarkerAt(image, o) && o + HeaderSize <= |image|
    ensures var c := codec(LzmaHeader, image[o + HeaderSize..], limit, Int64(image[o + 5..o + HeaderSize]));
            Decompress(image, codec, o, limit) ==
              (if c.Produced? then Decompressed(c.output) else CodecFailed, o + HeaderSize + c.consumed)
  {
    HeaderAtMarker(image, o);
  }
}
