/**
 * Generic ISOBMFF box framing (section 4.2 of ISO/IEC 14496-12): the header that
 * precedes every box. The header writer and reader are not part of the WebVTT
 * source file; they are modelled here from the framework's documented contract.
 */
module BoxHeaders {
  import opened Bytes

  /** A four-character box type; each character is one byte on the wire. */
  type FourCC = s: string | |s| == 4 && forall k | 0 <= k < |s| :: s[k] as int < 0x100
    witness "free"

  /** Length of the ordinary header: 32-bit size followed by the type. */
  const BOX_HEADER_SIZE: nat := 8
  /** Length of the header with a 64-bit `largesize` after the type. */
  const LARGE_HEADER_SIZE: nat := 16

  /** A decoded header: type, total box size (header included), header length. */
  datatype BoxHeader = BoxHeader(name: FourCC, size: nat, hdrLen: nat)

  /** Structural faults found while decoding boxes. */
  datatype BoxError =
    | TruncatedInput      // fewer bytes than a header or a declared size promises
    | BadHeaderSize       // a declared size smaller than the header itself
    | MalformedContainer  // children overrun or underrun their parent
    | BadSizeInWvtt       // the wvtt children overran the sample entry

  /** Reading a header: nothing left to read, a fault, or a header. */
  datatype HeaderOutcome = NoMoreBoxes | HeaderError(error: BoxError) | Parsed(header: BoxHeader)

  function CodeBytes(name: FourCC): (r: seq<byte>)
    ensures |r| == 4
  {
    [name[0] as int, name[1] as int, name[2] as int, name[3] as int]
  }

  function CodeOf(b: seq<byte>): FourCC
    requires |b| >= 4
  {
    [b[0] as char, b[1] as char, b[2] as char, b[3] as char]
  }

  /** The type code survives its byte encoding. */
  lemma CodeRoundTrip(name: FourCC, rest: seq<byte>)
    ensures CodeOf(CodeBytes(name) + rest) == name
  {
    var b := CodeBytes(name) + rest;
    assert CodeOf(b)[0] == name[0] && CodeOf(b)[1] == name[1];
    assert CodeOf(b)[2] == name[2] && CodeOf(b)[3] == name[3];
  }

  /**
   * The 8-byte header written before every box: the size as a 32-bit big-endian
   * value (a size beyond 32 bits is truncated, as a uint32 conversion does), then
   * the four type bytes.
   */
  function EncodeHeader(name: FourCC, size: nat): (r: seq<byte>)
    ensures |r| == BOX_HEADER_SIZE
    ensures size < TWO_POW_32 ==> ReadBe32(r) == size
  {
    Be32RoundTrip(size % TWO_POW_32);
    ReadBe32Prefix(Be32(size % TWO_POW_32), CodeBytes(name));
    Be32(size % TWO_POW_32) + CodeBytes(name)
  }

  /**
   * Reads one header from the bytes left in the stream. A size field of 1 means a
   * 64-bit size follows the type; a size field of 0 means the box runs to the end
   * of the stream; an empty stream is end-of-stream, distinct from a fault.
   */
  function DecodeHeader(data: seq<byte>): (r: HeaderOutcome)
    ensures r.NoMoreBoxes? <==> |data| == 0
    ensures r.Parsed? ==> r.header.hdrLen in {BOX_HEADER_SIZE, LARGE_HEADER_SIZE}
    ensures r.Parsed? ==> r.header.hdrLen <= r.header.size && r.header.hdrLen <= |data|
  {
    if |data| == 0 then NoMoreBoxes
    else if |data| < BOX_HEADER_SIZE then HeaderError(TruncatedInput)
    else
      var size32 := ReadBe32(data);
      var name := CodeOf(data[4..8]);
      if size32 == 1 then
        if |data| < LARGE_HEADER_SIZE then HeaderError(TruncatedInput)
        else
          var size64 := ReadBe64(data[8..16]);
          if size64 < LARGE_HEADER_SIZE then HeaderError(BadHeaderSize)
          else Parsed(BoxHeader(name, size64, LARGE_HEADER_SIZE))
      else if size32 == 0 then Parsed(BoxHeader(name, |data|, BOX_HEADER_SIZE))
      else if size32 < BOX_HEADER_SIZE then HeaderError(BadHeaderSize)
      else Parsed(BoxHeader(name, size32, BOX_HEADER_SIZE))
  }

  /** A header written for a size that fits 32 bits reads back as the same type and size. */
  lemma {:induction false} HeaderRoundTrip(name: FourCC, size: nat, rest: seq<byte>)
    requires BOX_HEADER_SIZE <= size < TWO_POW_32
    ensures DecodeHeader(EncodeHeader(name, size) + rest) == Parsed(BoxHeader(name, size, BOX_HEADER_SIZE))
  {
    var data := EncodeHeader(name, size) + rest;
    ReadBe32Prefix(EncodeHeader(name, size), rest);
    assert data[4..8] == CodeBytes(name);
    CodeRoundTrip(name, []);
    assert CodeBytes(name) + [] == CodeBytes(name);
  }
}
