/**
 * The two WebVTT containers as the mutable objects the decoder builds: the
 * `wvtt` sample entry (ISO/IEC 14496-30 on top of the SampleEntry of section
 * 8.5.2.2 of ISO/IEC 14496-12) and the `vttc` cue box. Each keeps every child
 * in order and, beside that list, a typed field for the child types the
 * format names.
 */
module Wvtt {
  import opened Bytes
  import opened Results
  import opened BoxHeaders
  import opened VttBoxes

  /** Header, six reserved bytes and the data reference index. */
  const WVTT_BYTES_BEFORE_CHILDREN: nat := 16

  /** The typed field a child fills, decided by the kind of box it is. */
  datatype Slot = TextSlot(kind: TextKind) | VsidSlot | BtrtSlot | NoSlot

  function SlotOf(b: Box): Slot
  {
    match b
    case Text(kind, _) => TextSlot(kind)
    case Vsid(_) => VsidSlot
    case Btrt(_) => BtrtSlot
    case _ => NoSlot
  }

  /** The last child in `cs` that fills slot `s`, if any does. */
  function LastInSlot(cs: seq<Box>, s: Slot): Option<Box>
  {
    if cs == [] then None
    else if SlotOf(cs[|cs| - 1]) == s then Some(cs[|cs| - 1])
    else LastInSlot(cs[..|cs| - 1], s)
  }

  /** A slot holds one of the children, of the slot's kind; it is empty only when no child fits it. */
  lemma {:induction false} LastInSlotSpec(cs: seq<Box>, s: Slot)
    ensures LastInSlot(cs, s).Some? ==> LastInSlot(cs, s).value in cs && SlotOf(LastInSlot(cs, s).value) == s
    ensures LastInSlot(cs, s).None? <==> forall k | 0 <= k < |cs| :: SlotOf(cs[k]) != s
  {
    if cs != [] && SlotOf(cs[|cs| - 1]) != s {
      var front := cs[..|cs| - 1];
      LastInSlotSpec(front, s);
      assert forall k | 0 <= k < |front| :: front[k] == cs[k];
    }
  }

  /** The child at `i` is the one a slot keeps when no later child fills the same slot. */
  lemma {:induction false} LastInSlotIsLast(cs: seq<Box>, s: Slot, i: nat)
    requires i < |cs| && SlotOf(cs[i]) == s
    requires forall j | i < j < |cs| :: SlotOf(cs[j]) != s
    ensures LastInSlot(cs, s) == Some(cs[i])
  {
    if i < |cs| - 1 {
      var front := cs[..|cs| - 1];
      assert front[i] == cs[i];
      assert forall j | i < j < |front| :: front[j] == cs[j];
      LastInSlotIsLast(front, s, i);
    }
  }

  /** Adding a child replaces the slot it fills and leaves every other slot alone. */
  lemma LastInSlotAppend(cs: seq<Box>, c: Box, s: Slot)
    ensures LastInSlot(cs + [c], s) == if SlotOf(c) == s then Some(c) else LastInSlot(cs, s)
  {
    assert (cs + [c])[..|cs|] == cs;
  }

  /** The wvtt size: 16 bytes before the children, then the children's sizes. */
  function WvttSize(cs: seq<Box>): (r: nat)
    ensures r >= WVTT_BYTES_BEFORE_CHILDREN
  {
    WVTT_BYTES_BEFORE_CHILDREN + ChildrenSize(cs)
  }

  /** A child added to a wvtt box raises its size by exactly the child's size. */
  lemma WvttSizeAppend(cs: seq<Box>, c: Box)
    ensures WvttSize(cs + [c]) == WvttSize(cs) + c.Size()
  {
    ChildrenSizeAppend(cs, c);
  }

  /**
   * The wvtt layout: the header, six zero bytes, the big-endian data reference
   * index, then every child's encoding in list order.
   */
  function WvttBytes(dataReferenceIndex: uint16, cs: seq<Box>): (r: seq<byte>)
    ensures |r| == WvttSize(cs)
    ensures r[..BOX_HEADER_SIZE] == EncodeHeader("wvtt", WvttSize(cs))
    ensures r[BOX_HEADER_SIZE..14] == Zeros(6)
    ensures ReadBe16(r[14..16]) == dataReferenceIndex
    ensures r[WVTT_BYTES_BEFORE_CHILDREN..] == EncodeAll(cs)
  {
    var r := EncodeHeader("wvtt", WvttSize(cs)) + Zeros(6) + Be16(dataReferenceIndex) + EncodeAll(cs);
    Be16RoundTrip(dataReferenceIndex);
    assert r[14..16] == Be16(dataReferenceIndex);
    r
  }

  /** The wvtt sample entry. */
  class WvttBox {
    var vttC: Option<Box>
    var vlab: Option<Box>
    var btrt: Option<Box>
    var children: seq<Box>
    var dataReferenceIndex: uint16

    /** Each typed field holds the last child of its type, or nothing when there is none. */
    ghost predicate Valid()
      reads this
    {
      && vttC == LastInSlot(children, TextSlot(VttCText))
      && vlab == LastInSlot(children, TextSlot(VlabText))
      && btrt == LastInSlot(children, BtrtSlot)
    }

    /** NewWvttBox: an empty sample entry whose data reference index is 1. */
    constructor ()
      ensures Valid()
      ensures children == [] && dataReferenceIndex == 1
      ensures vttC == None && vlab == None && btrt == None
    {
      vttC, vlab, btrt := None, None, None;
      children := [];
      dataReferenceIndex := 1;
    }

    /** The zero value the decoder starts from, before it reads the index. */
    constructor Zero()
      ensures Valid()
      ensures children == [] && dataReferenceIndex == 0
      ensures vttC == None && vlab == None && btrt == None
    {
      vttC, vlab, btrt := None, None, None;
      children := [];
      dataReferenceIndex := 0;
    }

    /**
     * Appends the child to the ordered list and, when it is a vttC, vlab or btrt
     * box, also makes it the value of that typed field.
     */
    method AddChild(child: Box)
      modifies this
      ensures children == old(children) + [child]
      ensures vttC == (if SlotOf(child) == TextSlot(VttCText) then Some(child) else old(vttC))
      ensures vlab == (if SlotOf(child) == TextSlot(VlabText) then Some(child) else old(vlab))
      ensures btrt == (if SlotOf(child) == BtrtSlot then Some(child) else old(btrt))
      ensures dataReferenceIndex == old(dataReferenceIndex)
      ensures old(Valid()) ==> Valid()
    {
      var slot := SlotOf(child);
      if slot == TextSlot(VttCText) {
        vttC := Some(child);
      } else if slot == TextSlot(VlabText) {
        vlab := Some(child);
      } else if slot == BtrtSlot {
        btrt := Some(child);
      }
      LastInSlotAppend(children, child, TextSlot(VttCText));
      LastInSlotAppend(children, child, TextSlot(VlabText));
      LastInSlotAppend(children, child, BtrtSlot);
      children := children + [child];
    }

    /** The calculated size: 16 plus the size of every child. */
    method Size() returns (total: nat)
      ensures total == WvttSize(children)
    {
      total := WVTT_BYTES_BEFORE_CHILDREN;
      for i := 0 to |children|
        invariant total == WvttSize(children[..i])
      {
        assert children[..i + 1] == children[..i] + [children[i]];
        WvttSizeAppend(children[..i], children[i]);
        total := total + children[i].Size();
      }
      assert children[..|children|] == children;
    }

    /** Writes the header, the sample entry prefix, then each child in order. */
    method Encode() returns (out: seq<byte>)
      ensures out == WvttBytes(dataReferenceIndex, children)
    {
      var size := Size();
      var cs := children;
      var prefix := EncodeHeader("wvtt", size) + Zeros(6) + Be16(dataReferenceIndex);
      var body: seq<byte> := [];
      for i := 0 to |cs|
        invariant body == EncodeAll(cs[..i])
      {
        assert cs[..i + 1] == cs[..i] + [cs[i]];
        EncodeAllAppend(cs[..i], cs[i]);
        body := body + cs[i].Encode();
      }
      assert cs[..|cs|] == cs;
      out := prefix + body;
      assert out == WvttBytes(dataReferenceIndex, cs);
    }
  }

  /**
   * How the wvtt child loop ends: with the children read so far, having stopped
   * on reaching the declared end (`atEnd`) or on end of stream; or with a fault.
   */
  datatype WvttScan = Stopped(children: seq<Box>, atEnd: bool) | ScanFailed(error: BoxError)

  /** The loop's outcome once `cs` has already been read. */
  function After(cs: seq<Box>, scan: WvttScan): WvttScan
  {
    match scan
    case Stopped(bs, atEnd) => Stopped(cs + bs, atEnd)
    case ScanFailed(e) => ScanFailed(e)
  }

  lemma AfterAfter(cs: seq<Box>, bs: seq<Box>, scan: WvttScan)
    ensures After(cs, After(bs, scan)) == After(cs + bs, scan)
  {
    if scan.Stopped? {
      assert cs + (bs + scan.children) == (cs + bs) + scan.children;
    }
  }

  /**
   * The wvtt child loop: decode a child at offset `pos`, advance `pos` by the
   * child's `Size()`, stop on reaching `end`, fail past it; end of stream ends
   * the loop without a fault wherever `pos` is.
   */
  function WvttChildren(data: seq<byte>, pos: int, end: int): (r: WvttScan)
    ensures r.Stopped? && r.atEnd ==> pos + ChildrenSize(r.children) == end
    ensures r.Stopped? && !r.atEnd && r.children != [] ==> pos + ChildrenSize(r.children) < end
    decreases |data|
  {
    match DecodeBox(pos, data)
    case EndOfStream => Stopped([], false)
    case DecodeError(e) => ScanFailed(e)
    case Decoded(b, n) =>
      var next := pos + b.Size();
      if next == end then Stopped([b], true)
      else if next > end then ScanFailed(BadSizeInWvtt)
      else After([b], WvttChildren(data[n..], next, end))
  }

  /**
   * DecodeWvtt: skips six reserved bytes, reads the data reference index, then
   * runs the child loop from `startPos + 16` to `startPos + hdr.size`.
   */
  method DecodeWvtt(hdr: BoxHeader, startPos: int, payload: seq<byte>) returns (r: Result<WvttBox, BoxError>)
    requires |payload| >= 8
    ensures var scan := WvttChildren(payload[8..], startPos + WVTT_BYTES_BEFORE_CHILDREN, startPos + hdr.size);
      && (r.Failure? <==> scan.ScanFailed?)
      && (r.Failure? ==> r.error == scan.error)
      && (r.Success? ==>
            && fresh(r.value) && r.value.Valid()
            && r.value.children == scan.children
            && r.value.dataReferenceIndex == ReadBe16(payload[6..8]))
  {
    var w := new WvttBox.Zero();
    w.dataReferenceIndex := ReadBe16(payload[6..8]);
    var rest := payload[8..];
    var pos := startPos + WVTT_BYTES_BEFORE_CHILDREN;
    var end := startPos + hdr.size;
    ghost var whole := WvttChildren(rest, pos, end);
    ghost var tail := whole;
    assert ScanIs(rest, pos, end, tail);
    ghost var cs: seq<Box> := [];
    while true
      invariant fresh(w) && w.Valid() && w.dataReferenceIndex == ReadBe16(payload[6..8])
      invariant w.children == cs
      invariant whole == WvttChildren(payload[8..], startPos + WVTT_BYTES_BEFORE_CHILDREN, startPos + hdr.size)
      invariant ScanIs(rest, pos, end, tail) && After(cs, tail) == whole
      decreases |rest|
    {
      var outcome := DecodeBox(pos, rest);
      ScanStops(rest, pos, end, tail);
      match outcome
      case EndOfStream =>
        assert cs + [] == cs;
        return Success(w);
      case DecodeError(e) =>
        return Failure(e);
      case Decoded(box, n) =>
        ghost var next := ScanDecoded(rest, pos, end, tail, box, n);
        AfterAfter(cs, [box], next);
        w.AddChild(box);
        cs := cs + [box];
        pos := pos + box.Size();
        if pos == end {
          assert whole == Stopped(cs, true);
          return Success(w);
        } else if pos > end {
          return Failure(BadSizeInWvtt);
        }
        rest := rest[n..];
        tail := next;
    }
  }

  /** The loop ends at once when no child can be decoded. */
  lemma ScanStops(data: seq<byte>, pos: int, end: int, scan: WvttScan)
    requires ScanIs(data, pos, end, scan)
    ensures DecodeBox(pos, data).EndOfStream? ==> scan == Stopped([], false)
    ensures DecodeBox(pos, data).DecodeError? ==> scan == ScanFailed(DecodeBox(pos, data).error)
  {
  }

  /** One turn of the loop, after a child has been decoded. */
  lemma ScanDecoded(data: seq<byte>, pos: int, end: int, scan: WvttScan, b: Box, n: nat) returns (next: WvttScan)
    requires ScanIs(data, pos, end, scan)
    requires DecodeBox(pos, data) == Decoded(b, n)
    ensures n <= |data|
    ensures ScanIs(data[n..], pos + b.Size(), end, next)
    ensures pos + b.Size() == end ==> scan == Stopped([b], true)
    ensures pos + b.Size() > end ==> scan == ScanFailed(BadSizeInWvtt)
    ensures pos + b.Size() < end ==> scan == After([b], next)
  {
    next := WvttChildren(data[n..], pos + b.Size(), end);
  }

  /** The loop's outcome over `data` is `scan`. */
  ghost predicate ScanIs(data: seq<byte>, pos: int, end: int, scan: WvttScan)
  {
    WvttChildren(data, pos, end) == scan
  }

  /** The loop stops at the declared end on the concatenated encodings of well-formed children. */
  lemma WvttChildrenEncodeAll(cs: seq<Box>, pos: int, end: int)
    requires forall k | 0 <= k < |cs| :: cs[k].WellFormed()
    requires end == pos + ChildrenSize(cs)
    ensures ScanIs(EncodeAll(cs), pos, end, Stopped(cs, cs != []))
  {
    EncodingsDecode(cs);
    PartsScan(cs, Encodings(cs), pos, end);
  }

  lemma {:induction false} PartsScan(cs: seq<Box>, parts: seq<seq<byte>>, pos: int, end: int)
    requires PartsDecodeTo(cs, parts)
    requires end == pos + ChildrenSize(cs)
    ensures ScanIs(Concat(parts), pos, end, Stopped(cs, cs != []))
  {
    if cs == [] {
      assert Concat(parts) == [];
    } else {
      PartsHead(cs, parts, pos);
      if cs[1..] == [] {
        LastScanned(Concat(parts), pos, end, cs);
      } else {
        PartsScan(cs[1..], parts[1..], pos + cs[0].Size(), end);
        ScanStep(Concat(parts), Concat(parts[1..]), pos, end, cs, true);
      }
    }
  }

  /**
   * When the declared end lies beyond the children, the loop reads every child
   * and then stops at end of stream without a fault.
   */
  lemma WvttChildrenStopsEarly(cs: seq<Box>, pos: int, end: int)
    requires forall k | 0 <= k < |cs| :: cs[k].WellFormed()
    requires end > pos + ChildrenSize(cs)
    ensures WvttChildren(EncodeAll(cs), pos, end) == Stopped(cs, false)
  {
    EncodingsDecode(cs);
    PartsScanShort(cs, Encodings(cs), pos, end);
  }

  lemma {:induction false} PartsScanShort(cs: seq<Box>, parts: seq<seq<byte>>, pos: int, end: int)
    requires PartsDecodeTo(cs, parts)
    requires end > pos + ChildrenSize(cs)
    ensures ScanIs(Concat(parts), pos, end, Stopped(cs, false))
  {
    if cs == [] {
      assert Concat(parts) == [];
    } else {
      PartsHead(cs, parts, pos);
      PartsScanShort(cs[1..], parts[1..], pos + cs[0].Size(), end);
      ScanStep(Concat(parts), Concat(parts[1..]), pos, end, cs, false);
    }
  }

  /**
   * When the declared end falls inside child `k`, the loop reads the children
   * before it and then fails with BadSizeInWvtt on that child.
   */
  lemma WvttChildrenOverrun(cs: seq<Box>, pos: int, end: int, k: nat)
    requires forall i | 0 <= i < |cs| :: cs[i].WellFormed()
    requires k < |cs| && pos + ChildrenSize(cs[..k]) < end < pos + ChildrenSize(cs[..k + 1])
    ensures WvttChildren(EncodeAll(cs), pos, end) == ScanFailed(BadSizeInWvtt)
  {
    EncodingsDecode(cs);
    PartsScanOverrun(cs, Encodings(cs), pos, end, k);
  }

  lemma {:induction false} PartsScanOverrun(cs: seq<Box>, parts: seq<seq<byte>>, pos: int, end: int, k: nat)
    requires PartsDecodeTo(cs, parts)
    requires k < |cs| && pos + ChildrenSize(cs[..k]) < end < pos + ChildrenSize(cs[..k + 1])
    ensures ScanIs(Concat(parts), pos, end, ScanFailed(BadSizeInWvtt))
  {
    PartsHead(cs, parts, pos);
    PrefixSize(cs, k);
    if k == 0 {
      ScanOverrunsHere(Concat(parts), pos, end, cs[0]);
    } else {
      PartsScanOverrun(cs[1..], parts[1..], pos + cs[0].Size(), end, k - 1);
      ScanStepFails(Concat(parts), Concat(parts[1..]), pos, end, cs[0]);
    }
  }

  lemma ScanOverrunsHere(data: seq<byte>, pos: int, end: int, b: Box)
    requires DecodeBox(pos, data) == Decoded(b, b.Size())
    requires pos + b.Size() > end
    ensures ScanIs(data, pos, end, ScanFailed(BadSizeInWvtt))
  {
  }

  /** A prefix of one or more children is the first child and a prefix of the rest. */
  lemma PrefixSize(cs: seq<Box>, k: nat)
    requires k < |cs|
    ensures ChildrenSize(cs[..k + 1]) == cs[0].Size() + ChildrenSize(cs[1..][..k])
    ensures k > 0 ==> ChildrenSize(cs[..k]) == cs[0].Size() + ChildrenSize(cs[1..][..k - 1])
    ensures ChildrenSize(cs[..0]) == 0
  {
    assert cs[..k + 1][1..] == cs[1..][..k];
    if k > 0 {
      assert cs[..k][1..] == cs[1..][..k - 1];
    }
  }

  lemma ScanStepFails(data: seq<byte>, rest: seq<byte>, pos: int, end: int, b: Box)
    requires DecodeBox(pos, data) == Decoded(b, b.Size())
    requires pos + b.Size() < end
    requires data[b.Size()..] == rest
    requires ScanIs(rest, pos + b.Size(), end, ScanFailed(BadSizeInWvtt))
    ensures ScanIs(data, pos, end, ScanFailed(BadSizeInWvtt))
  {
  }

  lemma LastScanned(data: seq<byte>, pos: int, end: int, cs: seq<Box>)
    requires cs != [] && cs[1..] == []
    requires DecodeBox(pos, data) == Decoded(cs[0], cs[0].Size())
    requires end == pos + cs[0].Size()
    ensures ScanIs(data, pos, end, Stopped(cs, true))
  {
    assert [cs[0]] == cs;
  }

  lemma ScanStep(data: seq<byte>, rest: seq<byte>, pos: int, end: int, cs: seq<Box>, atEnd: bool)
    requires cs != []
    requires DecodeBox(pos, data) == Decoded(cs[0], cs[0].Size())
    requires pos + cs[0].Size() < end
    requires data[cs[0].Size()..] == rest
    requires ScanIs(rest, pos + cs[0].Size(), end, Stopped(cs[1..], atEnd))
    ensures ScanIs(data, pos, end, Stopped(cs, atEnd))
  {
    assert [cs[0]] + cs[1..] == cs;
  }

  /**
   * The first 16 bytes `Encode` writes for a wvtt box read back as a wvtt header
   * of the box's size and as its data reference index.
   */
  lemma WvttPrefixDecodes(dataReferenceIndex: uint16, cs: seq<Box>)
    requires WvttSize(cs) < TWO_POW_32
    ensures var bytes := WvttBytes(dataReferenceIndex, cs);
      && DecodeHeader(bytes) == Parsed(BoxHeader("wvtt", WvttSize(cs), BOX_HEADER_SIZE))
      && ReadBe16(bytes[BOX_HEADER_SIZE..][6..8]) == dataReferenceIndex
  {
    var bytes := WvttBytes(dataReferenceIndex, cs);
    HeaderRoundTrip("wvtt", WvttSize(cs), bytes[BOX_HEADER_SIZE..]);
    assert bytes == bytes[..BOX_HEADER_SIZE] + bytes[BOX_HEADER_SIZE..];
    assert bytes[BOX_HEADER_SIZE..][6..8] == bytes[14..16];
  }

  /**
   * Decoding what `Encode` writes for a wvtt box of well-formed children gives
   * back its data reference index and its children, the loop stopping exactly
   * at the declared size.
   */
  lemma WvttDecodeEncode(dataReferenceIndex: uint16, cs: seq<Box>, startPos: int)
    requires forall k | 0 <= k < |cs| :: cs[k].WellFormed()
    requires WvttSize(cs) < TWO_POW_32
    ensures var bytes := WvttBytes(dataReferenceIndex, cs);
      && DecodeHeader(bytes) == Parsed(BoxHeader("wvtt", WvttSize(cs), BOX_HEADER_SIZE))
      && ReadBe16(bytes[BOX_HEADER_SIZE..][6..8]) == dataReferenceIndex
      && WvttChildren(bytes[BOX_HEADER_SIZE..][8..], startPos + WVTT_BYTES_BEFORE_CHILDREN, startPos + WvttSize(cs))
         == Stopped(cs, cs != [])
  {
    WvttPrefixDecodes(dataReferenceIndex, cs);
    var bytes := WvttBytes(dataReferenceIndex, cs);
    assert bytes[BOX_HEADER_SIZE..][8..] == EncodeAll(cs);
    WvttChildrenEncodeAll(cs, startPos + WVTT_BYTES_BEFORE_CHILDREN, startPos + WvttSize(cs));
  }

  /** The vttc cue box. */
  class VttcBox {
    var vsid: Option<Box>
    var iden: Option<Box>
    var ctim: Option<Box>
    var sttg: Option<Box>
    var payl: Option<Box>
    var children: seq<Box>

    ghost predicate Valid()
      reads this
    {
      && vsid == LastInSlot(children, VsidSlot)
      && iden == LastInSlot(children, TextSlot(IdenText))
      && ctim == LastInSlot(children, TextSlot(CtimText))
      && sttg == LastInSlot(children, TextSlot(SttgText))
      && payl == LastInSlot(children, TextSlot(PaylText))
    }

    constructor ()
      ensures Valid() && children == []
      ensures vsid == None && iden == None && ctim == None && sttg == None && payl == None
    {
      vsid, iden, ctim, sttg, payl := None, None, None, None, None;
      children := [];
    }

    /**
     * Appends the child to the ordered list and, when it is a vsid, iden, ctim,
     * sttg or payl box, also makes it the value of that typed field.
     */
    method AddChild(child: Box)
      modifies this
      ensures children == old(children) + [child]
      ensures vsid == (if SlotOf(child) == VsidSlot then Some(child) else old(vsid))
      ensures iden == (if SlotOf(child) == TextSlot(IdenText) then Some(child) else old(iden))
      ensures ctim == (if SlotOf(child) == TextSlot(CtimText) then Some(child) else old(ctim))
      ensures sttg == (if SlotOf(child) == TextSlot(SttgText) then Some(child) else old(sttg))
      ensures payl == (if SlotOf(child) == TextSlot(PaylText) then Some(child) else old(payl))
      ensures old(Valid()) ==> Valid()
    {
      var slot := SlotOf(child);
      if slot == VsidSlot {
        vsid := Some(child);
      } else if slot == TextSlot(IdenText) {
        iden := Some(child);
      } else if slot == TextSlot(CtimText) {
        ctim := Some(child);
      } else if slot == TextSlot(SttgText) {
        sttg := Some(child);
      } else if slot == TextSlot(PaylText) {
        payl := Some(child);
      }
      LastInSlotAppend(children, child, VsidSlot);
      LastInSlotAppend(children, child, TextSlot(IdenText));
      LastInSlotAppend(children, child, TextSlot(CtimText));
      LastInSlotAppend(children, child, TextSlot(SttgText));
      LastInSlotAppend(children, child, TextSlot(PaylText));
      children := children + [child];
    }

    /** The container size: the header plus the size of every child. */
    function Size(): (r: nat)
      reads this
      ensures r == BOX_HEADER_SIZE + ChildrenSize(children)
    {
      Vttc(children).Size()
    }

    /** The container layout: the header, then every child's encoding in list order. */
    function Encode(): (r: seq<byte>)
      reads this
      ensures |r| == Size()
      ensures Size() < TWO_POW_32 ==> ReadBe32(r) == Size()
      ensures r[..4] == Be32(Size() % TWO_POW_32) && CodeOf(r[4..8]) == "vttc"
      ensures r[BOX_HEADER_SIZE..] == EncodeAll(children)
    {
      var r := Vttc(children).Encode();
      CodeRoundTrip("vttc", []);
      assert r[..8] == EncodeHeader("vttc", Size());
      assert r[..4] == EncodeHeader("vttc", Size())[..4];
      assert r[4..8] == CodeBytes("vttc");
      r
    }
  }

  /**
   * DecodeVttc: the container framework reads the children between
   * `startPos + 8` and `startPos + hdr.size`; each is then added in order.
   */
  method DecodeVttc(hdr: BoxHeader, startPos: int, payload: seq<byte>) returns (r: Result<VttcBox, BoxError>)
    ensures var decoded := ContainerChildren(payload, startPos + BOX_HEADER_SIZE, startPos + hdr.size);
      && (r.Failure? <==> decoded.Failure?)
      && (r.Failure? ==> r.error == decoded.error)
      && (r.Success? ==> fresh(r.value) && r.value.Valid() && r.value.children == decoded.value)
  {
    match ContainerChildren(payload, startPos + BOX_HEADER_SIZE, startPos + hdr.size)
    case Failure(e) =>
      return Failure(e);
    case Success(cs) =>
      var b := new VttcBox();
      for i := 0 to |cs|
        invariant fresh(b) && b.Valid() && b.children == cs[..i]
      {
        assert cs[..i + 1] == cs[..i] + [cs[i]];
        b.AddChild(cs[i]);
      }
      assert cs[..|cs|] == cs;
      return Success(b);
  }

  /** What a vttc box's `Encode` writes after its header reads back as its children. */
  lemma VttcDecodeEncode(cs: seq<Box>, startPos: int)
    requires forall k | 0 <= k < |cs| :: cs[k].WellFormed()
    ensures ContainerChildren(Vttc(cs).Encode()[BOX_HEADER_SIZE..], startPos + BOX_HEADER_SIZE, startPos + Vttc(cs).Size())
         == Success(cs)
  {
    var data := Vttc(cs).Encode()[BOX_HEADER_SIZE..];
    assert data == Vttc(cs).Payload() == EncodeAll(cs);
    ChildrenDecodeEncode(cs, startPos + BOX_HEADER_SIZE, startPos + Vttc(cs).Size());
    assert ChildrenAre(data, startPos + BOX_HEADER_SIZE, startPos + Vttc(cs).Size(), cs);
  }
}
