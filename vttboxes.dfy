/**
 * The WebVTT box family of ISO/IEC 14496-30 as values: the leaf boxes (text,
 * the 32-bit cue source id, the empty cue), the `vttc` cue container, and the
 * registry that decodes one box from the bytes left in a stream.
 */
module VttBoxes {
  import opened Bytes
  import opened Results
  import opened BoxHeaders

  /**
   * The seven leaves whose payload is the whole of the box after its header:
   * vttC (Config), vlab (SourceLabel), ctim (CueCurrentTime), iden (CueID),
   * sttg (Settings), payl (CueText) and vtta (CueAdditionalText).
   */
  datatype TextKind = VttCText | VlabText | CtimText | IdenText | SttgText | PaylText | VttaText
  {
    function Code(): FourCC
    {
      match this
      case VttCText => "vttC"
      case VlabText => "vlab"
      case CtimText => "ctim"
      case IdenText => "iden"
      case SttgText => "sttg"
      case PaylText => "payl"
      case VttaText => "vtta"
    }
  }

  /** The text kind registered for a type code, if any. */
  function TextKindOf(name: FourCC): (r: Option<TextKind>)
    ensures r.Some? ==> r.value.Code() == name
  {
    if name == "vttC" then Some(VttCText)
    else if name == "vlab" then Some(VlabText)
    else if name == "ctim" then Some(CtimText)
    else if name == "iden" then Some(IdenText)
    else if name == "sttg" then Some(SttgText)
    else if name == "payl" then Some(PaylText)
    else if name == "vtta" then Some(VttaText)
    else None
  }

  lemma TextKindOfCode(k: TextKind)
    ensures TextKindOf(k.Code()) == Some(k)
  {
  }

  /**
   * A box of the family. `Btrt` stands for the bit-rate box, kept as its raw
   * payload; `Other` is any type this registry does not know, kept verbatim.
   */
  datatype Box =
    | Text(kind: TextKind, text: seq<byte>)
    | Vtte
    | Vsid(sourceID: uint32)
    | Vttc(children: seq<Box>)
    | Btrt(payload: seq<byte>)
    | Other(name: FourCC, payload: seq<byte>)
  {
    /** The four-character code: the registry knows it for every box but an opaque one. */
    function Type(): (r: FourCC)
      ensures !this.Other? ==> Registered(r)
      ensures this.Text? ==> TextKindOf(r) == Some(this.kind)
    {
      match this
      case Text(kind, _) => TextKindOfCode(kind); kind.Code()
      case Vtte => "vtte"
      case Vsid(_) => "vsid"
      case Vttc(_) => "vttc"
      case Btrt(_) => "btrt"
      case Other(name, _) => name
    }

    /** Header plus payload; for the container, header plus its children's sizes. */
    function Size(): (r: nat)
      ensures r >= BOX_HEADER_SIZE
    {
      match this
      case Text(_, t) => BOX_HEADER_SIZE + |t|
      case Vtte => BOX_HEADER_SIZE
      case Vsid(_) => BOX_HEADER_SIZE + 4
      case Vttc(cs) => BOX_HEADER_SIZE + ChildrenSize(cs)
      case Btrt(p) => BOX_HEADER_SIZE + |p|
      case Other(_, p) => BOX_HEADER_SIZE + |p|
    }

    /** The bytes after the header: the text, the id, or the children in order. */
    function Payload(): (r: seq<byte>)
      ensures |r| == Size() - BOX_HEADER_SIZE
      decreases this, 0
    {
      match this
      case Text(_, t) => t
      case Vtte => []
      case Vsid(id) => Be32(id)
      case Vttc(cs) => EncodeAll(cs)
      case Btrt(p) => p
      case Other(_, p) => p
    }

    /** The header followed by the payload, `Size()` bytes in all. */
    function Encode(): (r: seq<byte>)
      ensures |r| == Size()
      ensures r[BOX_HEADER_SIZE..] == Payload()
      decreases this, 1
    {
      EncodeHeader(Type(), Size()) + Payload()
    }

    /**
     * The boxes whose encoding decodes back to them: every size fits the 32-bit
     * header field and an opaque box does not carry a registered type.
     */
    predicate WellFormed()
    {
      && Size() < TWO_POW_32
      && match this
         case Vttc(cs) => forall k | 0 <= k < |cs| :: cs[k].WellFormed()
         case Other(name, _) => !Registered(name)
         case _ => true
    }
  }

  /** The sum of the children's sizes. */
  function ChildrenSize(cs: seq<Box>): (r: nat)
    ensures cs != [] ==> r >= BOX_HEADER_SIZE
  {
    if cs == [] then 0 else cs[0].Size() + ChildrenSize(cs[1..])
  }

  /** The children's encodings, concatenated in list order without padding. */
  function EncodeAll(cs: seq<Box>): (r: seq<byte>)
    ensures |r| == ChildrenSize(cs)
    decreases cs, 2
  {
    if cs == [] then [] else cs[0].Encode() + EncodeAll(cs[1..])
  }

  /** Appending a child adds exactly its size. */
  lemma {:induction false} ChildrenSizeAppend(cs: seq<Box>, c: Box)
    ensures ChildrenSize(cs + [c]) == ChildrenSize(cs) + c.Size()
  {
    if cs != [] {
      assert (cs + [c])[1..] == cs[1..] + [c];
      ChildrenSizeAppend(cs[1..], c);
    } else {
      assert [c][1..] == [];
    }
  }

  /** Appending a child appends exactly its encoding. */
  lemma {:induction false} EncodeAllAppend(cs: seq<Box>, c: Box)
    ensures EncodeAll(cs + [c]) == EncodeAll(cs) + c.Encode()
  {
    if cs != [] {
      assert (cs + [c])[1..] == cs[1..] + [c];
      EncodeAllAppend(cs[1..], c);
    } else {
      assert [c][1..] == [];
    }
  }

  predicate Registered(name: FourCC)
  {
    TextKindOf(name).Some? || name in {"vtte", "vsid", "vttc", "btrt"}
  }

  /** DecodeVttC, DecodeVlab, DecodeCtim, DecodeIden, DecodeSttg, DecodePayl, DecodeVtta. */
  function DecodeText(kind: TextKind, payload: seq<byte>): (r: Box)
    ensures r.Type() == kind.Code()
    ensures r.Payload() == payload && r.Size() == BOX_HEADER_SIZE + |payload|
  {
    Text(kind, payload)
  }

  /** DecodeVtte: the payload, whatever it holds, is not looked at. */
  function DecodeVtte(payload: seq<byte>): (r: Box)
    ensures r.Type() == "vtte" && r.Size() == BOX_HEADER_SIZE && r.Payload() == []
  {
    Vtte
  }

  /**
   * The four bytes DecodeVsid reads its id from. The payload comes from a buffer
   * with at least 512 bytes of zeroed capacity, and a slice is bounded by that
   * capacity, so a payload shorter than four bytes is read with zeros after it.
   */
  function FirstFour(payload: seq<byte>): (r: seq<byte>)
    ensures |r| == 4
    ensures |payload| >= 4 ==> r == payload[..4]
    ensures |payload| < 4 ==> r[..|payload|] == payload && forall k | |payload| <= k < 4 :: r[k] == 0
  {
    if |payload| >= 4 then payload[..4] else payload + Zeros(4 - |payload|)
  }

  /** DecodeVsid: the id is the first four payload bytes, big-endian. */
  function DecodeVsid(payload: seq<byte>): (r: Box)
    ensures r.Vsid? && r.Size() == BOX_HEADER_SIZE + 4
    ensures r.Payload() == FirstFour(payload)
  {
    ReadBe32RoundTrip(FirstFour(payload));
    assert FirstFour(payload)[..4] == FirstFour(payload);
    Vsid(ReadBe32(FirstFour(payload)))
  }

  /**
   * The registry entry for a leaf type: the matching leaf decoder, or an opaque
   * box for a type it does not know.
   */
  function DecodeLeaf(name: FourCC, payload: seq<byte>): (r: Box)
    requires name != "vttc"
    ensures r.Type() == name
    ensures !Registered(name) ==> r == Other(name, payload)
  {
    match TextKindOf(name)
    case Some(kind) => DecodeText(kind, payload)
    case None =>
      if name == "vtte" then DecodeVtte(payload)
      else if name == "vsid" then DecodeVsid(payload)
      else if name == "btrt" then Btrt(payload)
      else Other(name, payload)
  }

  /** Reading one box: end of stream, a fault, or a box and the bytes it took. */
  datatype BoxOutcome = EndOfStream | DecodeError(error: BoxError) | Decoded(box: Box, consumed: nat)

  /**
   * Decodes the box at the head of `data`, which starts at file offset `startPos`;
   * an empty stream is end-of-stream, which callers tell apart from a fault.
   */
  function DecodeBox(startPos: int, data: seq<byte>): (r: BoxOutcome)
    ensures r.EndOfStream? <==> |data| == 0
    ensures r.Decoded? ==> BOX_HEADER_SIZE <= r.consumed <= |data|
    decreases |data|, 1
  {
    if |data| == 0 then EndOfStream else DecodeFramed(startPos, data)
  }

  /**
   * Reads the header at the head of a non-empty stream and decodes the payload it
   * frames. The payload handed to the box's decoder is exactly the declared size
   * minus the header; the bytes consumed are the declared size.
   */
  function DecodeFramed(startPos: int, data: seq<byte>): (r: BoxOutcome)
    requires |data| > 0
    ensures !r.EndOfStream?
    ensures r.Decoded? ==> BOX_HEADER_SIZE <= r.consumed <= |data|
    decreases |data|, 0
  {
    match DecodeHeader(data)
    case NoMoreBoxes => DecodeError(TruncatedInput)
    case HeaderError(e) => DecodeError(e)
    case Parsed(h) =>
      if h.size > |data| then DecodeError(TruncatedInput)
      else DecodePayload(startPos, h, data[h.hdrLen..h.size])
  }

  /** Dispatches a box's payload, bounded by its header, on the box's type code. */
  function DecodePayload(startPos: int, h: BoxHeader, payload: seq<byte>): (r: BoxOutcome)
    requires BOX_HEADER_SIZE <= h.size
    ensures r.Decoded? ==> r.consumed == h.size
    decreases |payload|, 3
  {
    if h.name == "vttc" then
      match ContainerChildren(payload, startPos + BOX_HEADER_SIZE, startPos + h.size)
      case Failure(e) => DecodeError(e)
      case Success(cs) => Decoded(Vttc(cs), h.size)
    else
      Decoded(DecodeLeaf(h.name, payload), h.size)
  }

  /**
   * The container framework's child loop: decode a child at offset `pos`, advance
   * `pos` by the child's `Size()`, stop when `pos` equals `end`; an offset past
   * `end`, or end of stream before `end`, is a MalformedContainer fault.
   */
  function ContainerChildren(data: seq<byte>, pos: int, end: int): (r: Result<seq<Box>, BoxError>)
    ensures r.Success? ==> pos + ChildrenSize(r.value) == end
    decreases |data|, 2
  {
    match DecodeBox(pos, data)
    case EndOfStream => if pos == end then Success([]) else Failure(MalformedContainer)
    case DecodeError(e) => Failure(e)
    case Decoded(b, n) =>
      var next := pos + b.Size();
      if next == end then Success([b])
      else if next > end then Failure(MalformedContainer)
      else
        match ContainerChildren(data[n..], next, end)
        case Failure(e) => Failure(e)
        case Success(bs) => Success([b] + bs)
  }

  /** Decoding the payload of an encoded leaf gives the leaf back. */
  lemma LeafRoundTrip(b: Box)
    requires !b.Vttc? && b.WellFormed()
    ensures DecodeLeaf(b.Type(), b.Payload()) == b
  {
    match b
    case Text(kind, _) => TextKindOfCode(kind);
    case Vsid(id) =>
      assert FirstFour(Be32(id)) == Be32(id);
      Be32RoundTrip(id);
    case _ =>
  }

  /** The header written for a well-formed box reads back as its type and size. */
  lemma EncodedHeader(b: Box, rest: seq<byte>)
    requires b.WellFormed()
    ensures DecodeHeader(b.Encode() + rest) == Parsed(BoxHeader(b.Type(), b.Size(), BOX_HEADER_SIZE))
  {
    HeaderRoundTrip(b.Type(), b.Size(), b.Payload() + rest);
    assert b.Encode() + rest == EncodeHeader(b.Type(), b.Size()) + (b.Payload() + rest);
  }

  /** Past the header, the decoder sees exactly the box's payload. */
  lemma EncodedPayload(b: Box, startPos: int, rest: seq<byte>)
    requires DecodeHeader(b.Encode() + rest) == Parsed(BoxHeader(b.Type(), b.Size(), BOX_HEADER_SIZE))
    ensures DecodeBox(startPos, b.Encode() + rest)
         == DecodePayload(startPos, BoxHeader(b.Type(), b.Size(), BOX_HEADER_SIZE), b.Payload())
  {
    assert DecodeBox(startPos, b.Encode() + rest) == DecodeFramed(startPos, b.Encode() + rest);
    assert (b.Encode() + rest)[BOX_HEADER_SIZE..b.Size()] == b.Payload();
  }

  /** The registry hands a leaf's payload to the leaf's own decoder. */
  lemma LeafPayload(b: Box, startPos: int)
    requires b.WellFormed() && !b.Vttc?
    ensures DecodePayload(startPos, BoxHeader(b.Type(), b.Size(), BOX_HEADER_SIZE), b.Payload()) == Decoded(b, b.Size())
  {
    LeafRoundTrip(b);
  }

  /** The registry hands a vttc payload to the container framework. */
  lemma VttcPayload(cs: seq<Box>, startPos: int)
    requires ChildrenAre(EncodeAll(cs), startPos + BOX_HEADER_SIZE, startPos + Vttc(cs).Size(), cs)
    ensures DecodePayload(startPos, BoxHeader("vttc", Vttc(cs).Size(), BOX_HEADER_SIZE), EncodeAll(cs))
         == Decoded(Vttc(cs), Vttc(cs).Size())
  {
  }

  /** Every well-formed box, followed by anything, decodes to itself and consumes its size. */
  lemma {:induction false} DecodeEncode(b: Box, startPos: int, rest: seq<byte>)
    requires b.WellFormed()
    ensures DecodeBox(startPos, b.Encode() + rest) == Decoded(b, b.Size())
    decreases b, 1
  {
    EncodedHeader(b, rest);
    EncodedPayload(b, startPos, rest);
    PayloadDecodes(b, startPos);
  }

  /** The registry turns a well-formed box's own payload back into the box. */
  lemma {:induction false} PayloadDecodes(b: Box, startPos: int)
    requires b.WellFormed()
    ensures DecodePayload(startPos, BoxHeader(b.Type(), b.Size(), BOX_HEADER_SIZE), b.Payload()) == Decoded(b, b.Size())
    decreases b, 0
  {
    if b.Vttc? {
      ChildrenDecodeEncode(b.children, startPos + BOX_HEADER_SIZE, startPos + b.Size());
      VttcPayload(b.children, startPos);
    } else {
      LeafPayload(b, startPos);
    }
  }

  /** The concatenated encodings of well-formed children decode back to the same list. */
  lemma {:induction false} ChildrenDecodeEncode(cs: seq<Box>, pos: int, end: int)
    requires forall k | 0 <= k < |cs| :: cs[k].WellFormed()
    requires end == pos + ChildrenSize(cs)
    ensures ChildrenAre(EncodeAll(cs), pos, end, cs)
    decreases cs, 2
  {
    EncodingsDecode(cs);
    PartsDecode(cs, Encodings(cs), pos, end);
  }

  /** Each child's encoding on its own. */
  function Encodings(cs: seq<Box>): (r: seq<seq<byte>>)
    ensures |r| == |cs| && forall k | 0 <= k < |cs| :: r[k] == cs[k].Encode()
  {
    seq(|cs|, k requires 0 <= k < |cs| => cs[k].Encode())
  }

  /** The encodings of well-formed children each decode to their child, and concatenate to the list's encoding. */
  lemma {:induction false} EncodingsDecode(cs: seq<Box>)
    requires forall k | 0 <= k < |cs| :: cs[k].WellFormed()
    ensures PartsDecodeTo(cs, Encodings(cs))
    ensures Concat(Encodings(cs)) == EncodeAll(cs)
    decreases cs, 1
  {
    if cs != [] {
      var parts := Encodings(cs);
      forall p, rest ensures DecodeBox(p, parts[0] + rest) == Decoded(cs[0], cs[0].Size()) {
        DecodeEncode(cs[0], p, rest);
      }
      assert forall k | 0 <= k < |cs[1..]| :: cs[1..][k].WellFormed() by {
        forall k | 0 <= k < |cs[1..]| ensures cs[1..][k].WellFormed() {
          assert cs[1..][k] == cs[k + 1];
        }
      }
      EncodingsDecode(cs[1..]);
      assert parts[1..] == Encodings(cs[1..]);
    }
  }

  /** The concatenation of byte strings, in order. */
  function Concat(parts: seq<seq<byte>>): (r: seq<byte>)
  {
    if parts == [] then [] else parts[0] + Concat(parts[1..])
  }

  /** Each part decodes, whatever follows it and wherever it starts, to the child at its index. */
  ghost predicate PartsDecodeTo(cs: seq<Box>, parts: seq<seq<byte>>)
  {
    && |parts| == |cs|
    && (cs != [] ==>
          && |parts[0]| == cs[0].Size()
          && (forall p, rest :: DecodeBox(p, parts[0] + rest) == Decoded(cs[0], cs[0].Size()))
          && PartsDecodeTo(cs[1..], parts[1..]))
  }

  /** The container child loop over `data` yields exactly `cs`. */
  ghost predicate ChildrenAre(data: seq<byte>, pos: int, end: int, cs: seq<Box>)
  {
    ContainerChildren(data, pos, end) == Success(cs)
  }

  /** Parts that each decode to one child decode in sequence to the children once concatenated. */
  lemma {:induction false} PartsDecode(cs: seq<Box>, parts: seq<seq<byte>>, pos: int, end: int)
    requires PartsDecodeTo(cs, parts)
    requires end == pos + ChildrenSize(cs)
    ensures ChildrenAre(Concat(parts), pos, end, cs)
  {
    if cs != [] {
      PartsHead(cs, parts, pos);
      if cs[1..] == [] {
        SingleChild(Concat(parts), pos, end, cs);
      } else {
        PartsDecode(cs[1..], parts[1..], pos + cs[0].Size(), end);
        ChildrenStep(Concat(parts), Concat(parts[1..]), pos, end, cs);
      }
    }
  }

  /** The first part decodes to the first child and leaves the other parts. */
  lemma PartsHead(cs: seq<Box>, parts: seq<seq<byte>>, pos: int)
    requires PartsDecodeTo(cs, parts) && cs != []
    ensures DecodeBox(pos, Concat(parts)) == Decoded(cs[0], cs[0].Size())
    ensures cs[0].Size() <= |Concat(parts)|
    ensures Concat(parts)[cs[0].Size()..] == Concat(parts[1..])
    ensures ChildrenSize(cs) == cs[0].Size() + ChildrenSize(cs[1..])
  {
    assert Concat(parts) == parts[0] + Concat(parts[1..]);
    assert DecodeBox(pos, parts[0] + Concat(parts[1..])) == Decoded(cs[0], cs[0].Size());
  }

  /** A single child whose size reaches the parent's end closes the list. */
  lemma SingleChild(data: seq<byte>, pos: int, end: int, cs: seq<Box>)
    requires cs != [] && cs[1..] == []
    requires DecodeBox(pos, data) == Decoded(cs[0], cs[0].Size())
    requires end == pos + cs[0].Size()
    ensures ChildrenAre(data, pos, end, cs)
  {
    assert [cs[0]] == cs;
  }

  /** One turn of the child loop when the first child ends before the parent does. */
  lemma ChildrenStep(data: seq<byte>, rest: seq<byte>, pos: int, end: int, cs: seq<Box>)
    requires cs != []
    requires DecodeBox(pos, data) == Decoded(cs[0], cs[0].Size())
    requires pos + cs[0].Size() < end
    requires data[cs[0].Size()..] == rest
    requires ChildrenAre(rest, pos + cs[0].Size(), end, cs[1..])
    ensures ChildrenAre(data, pos, end, cs)
  {
    assert [cs[0]] + cs[1..] == cs;
  }

  /** A leaf's header is followed by its whole payload: nothing else is read. */
  lemma TextTakesWholePayload(kind: TextKind, startPos: int, data: seq<byte>)
    requires DecodeHeader(data).Parsed?
    requires DecodeHeader(data).header.name == kind.Code()
    requires DecodeHeader(data).header.size <= |data|
    ensures var h := DecodeHeader(data).header;
      DecodeBox(startPos, data) == Decoded(Text(kind, data[h.hdrLen..h.size]), h.size)
  {
    var h := DecodeHeader(data).header;
    var payload := data[h.hdrLen..h.size];
    assert DecodeBox(startPos, data) == DecodeFramed(startPos, data);
    assert DecodeFramed(startPos, data) == DecodePayload(startPos, h, payload);
    TextKindOfCode(kind);
    assert h.name != "vttc";
    assert DecodeLeaf(h.name, payload) == Text(kind, payload);
  }

  /** A vtte box decodes to the 8-byte empty box whatever payload it declares. */
  lemma VtteIgnoresPayload(startPos: int, data: seq<byte>)
    requires DecodeHeader(data).Parsed?
    requires DecodeHeader(data).header.name == "vtte"
    requires DecodeHeader(data).header.size <= |data|
    ensures DecodeBox(startPos, data) == Decoded(Vtte, DecodeHeader(data).header.size)
    ensures Vtte.Size() == BOX_HEADER_SIZE
  {
    var h := DecodeHeader(data).header;
    var payload := data[h.hdrLen..h.size];
    assert DecodeBox(startPos, data) == DecodeFramed(startPos, data);
    assert DecodeFramed(startPos, data) == DecodePayload(startPos, h, payload);
    assert TextKindOf(h.name) == None;
    assert DecodeLeaf(h.name, payload) == Vtte;
  }

  /**
   * A 10-byte vsid box holding only two id bytes still decodes: the two missing
   * bytes read as zeros, and the box consumes its declared 10 bytes.
   */
  lemma ShortVsidPadded()
    ensures DecodeBox(0, [0, 0, 0, 10, 118, 115, 105, 100, 1, 2]) == Decoded(Vsid(0x0102_0000), 10)
  {
    var data: seq<byte> := [0, 0, 0, 10, 118, 115, 105, 100, 1, 2];
    var h := BoxHeader("vsid", 10, BOX_HEADER_SIZE);
    ShortVsidHeader(data);
    assert DecodeBox(0, data) == DecodeFramed(0, data);
    assert DecodeFramed(0, data) == DecodePayload(0, h, data[8..10]);
    ShortVsidId(data[8..10]);
  }

  lemma ShortVsidHeader(data: seq<byte>)
    requires data == [0, 0, 0, 10, 118, 115, 105, 100, 1, 2]
    ensures DecodeHeader(data) == Parsed(BoxHeader("vsid", 10, BOX_HEADER_SIZE))
  {
    ReadBeDigits(data);
    assert ReadBe32(data) == 10;
    assert CodeOf(data[4..8]) == "vsid";
  }

  lemma ShortVsidId(payload: seq<byte>)
    requires payload == [1, 2]
    ensures DecodeLeaf("vsid", payload) == Vsid(0x0102_0000)
  {
    assert FirstFour(payload) == [1, 2, 0, 0];
    ReadBeDigits([1, 2, 0, 0]);
    assert ReadBe32([1, 2, 0, 0]) == 0x0102_0000;
  }
}
