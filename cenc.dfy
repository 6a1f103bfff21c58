/**
 * Per-sample Common Encryption ('cenc' scheme of ISO/IEC 23001-7) as the
 * decrypt-cenc example applies it to one fragment: choose the traf of the
 * track, normalise each sample's IV, and undo counter-mode encryption on the
 * protected spans that the SampleEncryptionBox lists.
 */
module Cenc {
  import opened Bytes
  import opened Results

  /**
   * The counter-mode decryptor, which is foreign to the example: it maps
   * (ciphertext, key, iv) to plaintext or an error. It is a parameter of
   * every operation here.
   */
  type Ctr = (seq<byte>, seq<byte>, seq<byte>) -> Result<seq<byte>, string>

  /** Counter mode turns n bytes into n bytes. */
  ghost predicate LengthPreserving(ctr: Ctr)
  {
    forall data, key, iv :: ctr(data, key, iv).Success? ==> |ctr(data, key, iv).value| == |data|
  }

  /** One subsample entry: a run of clear bytes, then a run of protected bytes. */
  datatype SubSample = SubSample(bytesOfClearData: uint16, bytesOfProtectedData: uint32)

  /** The SampleEncryptionBox: one IV per sample and, optionally, one subsample list per sample. */
  datatype SencBox = SencBox(ivs: seq<seq<byte>>, subSamples: seq<seq<SubSample>>)

  /** The per-sample metadata carried through decryption unchanged. */
  datatype SampleInfo = SampleInfo(flags: uint32, duration: uint32, size: uint32, compositionTimeOffset: int32)

  /** A sample with its decode time and its bytes. */
  datatype FullSample = FullSample(sample: SampleInfo, decodeTime: uint64, data: seq<byte>)

  /** A track fragment, reduced to what the example reads from it. */
  datatype Traf = Traf(trackID: uint32, senc: SencBox)

  /** Track-extends defaults, reduced to their track id and default values. */
  datatype Trex = Trex(trackID: uint32, defaultSampleDescriptionIndex: uint32,
                       defaultSampleDuration: uint32, defaultSampleSize: uint32, defaultSampleFlags: uint32)

  // ---------------------------------------------------------------- the key

  /** Why a hex key on the command line is refused. */
  datatype KeyError = KeyLength | InvalidHexByte(c: char)

  /** The value of a hexadecimal digit in either case. */
  function HexDigit(c: char): (r: Option<nat>)
    ensures r.Some? ==> r.value < 16
  {
    if '0' <= c <= '9' then Some(c as int - '0' as int)
    else if 'a' <= c <= 'f' then Some(c as int - 'a' as int + 10)
    else if 'A' <= c <= 'F' then Some(c as int - 'A' as int + 10)
    else None
  }

  /** Pairs of hex digits, most significant digit first; the first bad digit is reported. */
  function HexDecode(s: string): (r: Result<seq<byte>, KeyError>)
    requires |s| % 2 == 0
    ensures r.Success? ==> |r.value| == |s| / 2
    ensures r.Failure? ==> r.error.InvalidHexByte?
  {
    if s == [] then Success([])
    else
      match (HexDigit(s[0]), HexDigit(s[1]))
      case (None, _) => Failure(InvalidHexByte(s[0]))
      case (_, None) => Failure(InvalidHexByte(s[1]))
      case (Some(hi), Some(lo)) =>
        match HexDecode(s[2..])
        case Failure(e) => Failure(e)
        case Success(rest) => Success([hi * 16 + lo] + rest)
  }

  /** The key check in `start`: exactly 32 characters, then decoding as hex. */
  function ParseKey(hexKey: string): (r: Result<seq<byte>, KeyError>)
    ensures |hexKey| != 32 <==> r == Failure(KeyLength)
    ensures r.Success? ==> |r.value| == 16
  {
    if |hexKey| != 32 then Failure(KeyLength) else HexDecode(hexKey)
  }

  function LowerHexDigit(d: nat): (c: char)
    requires d < 16
    ensures HexDigit(c) == Some(d)
  {
    if d < 10 then ('0' as int + d) as char else ('a' as int + d - 10) as char
  }

  /** The lower-case hex spelling of a byte string. */
  function HexEncode(key: seq<byte>): (s: string)
    ensures |s| == 2 * |key|
  {
    if key == [] then [] else [LowerHexDigit(key[0] / 16), LowerHexDigit(key[0] % 16)] + HexEncode(key[1..])
  }

  /** Decoding a hex spelling gives the bytes back. */
  lemma {:induction false} HexRoundTrip(key: seq<byte>)
    ensures HexDecode(HexEncode(key)) == Success(key)
  {
    if key != [] {
      var s := HexEncode(key);
      assert s[2..] == HexEncode(key[1..]);
      HexRoundTrip(key[1..]);
      assert [key[0]] + key[1..] == key;
    }
  }

  /** Every 16-byte key spelled in hex passes the key validation in `start` and is recovered. */
  lemma ParseKeyRoundTrip(key: seq<byte>)
    requires |key| == 16
    ensures ParseKey(HexEncode(key)) == Success(key)
  {
    HexRoundTrip(key);
  }

  /** A 32-character key is refused only for a character that is not a hex digit. */
  lemma {:induction false} HexDecodeFails(s: string)
    requires |s| % 2 == 0
    ensures HexDecode(s).Failure? <==> exists k | 0 <= k < |s| :: HexDigit(s[k]).None?
  {
    if s != [] {
      HexDecodeFails(s[2..]);
      if HexDigit(s[0]).Some? && HexDigit(s[1]).Some? {
        forall k | 2 <= k < |s| ensures s[k] == s[2..][k - 2] { }
        if HexDecode(s[2..]).Failure? {
          var k :| 0 <= k < |s[2..]| && HexDigit(s[2..][k]).None?;
          assert HexDigit(s[k + 2]).None?;
        }
      }
    }
  }

  // ------------------------------------------------------------- the lookups

  /** The first traf of the track, if the fragment has one. */
  function TrafFor(trafs: seq<Traf>, trackID: uint32): (r: Option<Traf>)
    ensures r.None? <==> forall k | 0 <= k < |trafs| :: trafs[k].trackID != trackID
    ensures r.Some? ==> exists i | 0 <= i < |trafs| :: trafs[i] == r.value && trafs[i].trackID == trackID
                                                 && forall k | 0 <= k < i :: trafs[k].trackID != trackID
  {
    if trafs == [] then None
    else if trafs[0].trackID == trackID then Some(trafs[0])
    else
      var r := TrafFor(trafs[1..], trackID);
      assert forall k | 1 <= k < |trafs| :: trafs[k] == trafs[1..][k - 1];
      if r.Some? then
        var i :| 0 <= i < |trafs[1..]| && trafs[1..][i] == r.value && trafs[1..][i].trackID == trackID
                 && forall k | 0 <= k < i :: trafs[1..][k].trackID != trackID;
        assert trafs[i + 1] == r.value;
        r
      else r
  }

  /** findTraf: scans the trafs in order and stops at the first of the track. */
  method FindTraf(trafs: seq<Traf>, trackID: uint32) returns (r: Option<Traf>)
    ensures r == TrafFor(trafs, trackID)
  {
    for i := 0 to |trafs|
      invariant TrafFor(trafs, trackID) == TrafFor(trafs[i..], trackID)
    {
      assert trafs[i..][1..] == trafs[i + 1..];
      if trafs[i].trackID == trackID {
        return Some(trafs[i]);
      }
    }
    return None;
  }

  /**
   * The trex loop in `decryptCenc`: the loop variable keeps the last trex it was
   * given, so without a match it ends on the last trex; with no trex it is nil.
   */
  method FindTrex(trexs: seq<Trex>, trackID: uint32) returns (r: Option<Trex>)
    ensures |trexs| == 0 ==> r.None?
    ensures (exists k | 0 <= k < |trexs| :: trexs[k].trackID == trackID) ==>
      exists i | 0 <= i < |trexs| :: r == Some(trexs[i]) && trexs[i].trackID == trackID
                                 && forall k | 0 <= k < i :: trexs[k].trackID != trackID
    ensures |trexs| > 0 && (forall k | 0 <= k < |trexs| :: trexs[k].trackID != trackID) ==>
      r == Some(trexs[|trexs| - 1])
  {
    r := None;
    for i := 0 to |trexs|
      invariant forall k | 0 <= k < i :: trexs[k].trackID != trackID
      invariant i == 0 ==> r.None?
      invariant i > 0 ==> r == Some(trexs[i - 1])
    {
      r := Some(trexs[i]);
      if trexs[i].trackID == trackID {
        return;
      }
    }
  }

  // ------------------------------------------------------- one sample's bytes

  /** An 8-byte IV is padded with eight zero bytes to 16; any other IV is used as it is. */
  function NormalizeIV(iv: seq<byte>): (r: seq<byte>)
    ensures |iv| == 8 ==> |r| == 16 && r[..8] == iv && forall k | 8 <= k < 16 :: r[k] == 0
    ensures |iv| != 8 ==> r == iv
  {
    if |iv| == 8 then iv + Zeros(8) else iv
  }

  /** The bytes a subsample list accounts for: every clear and protected count. */
  function SubsampleTotal(ss: seq<SubSample>): nat
  {
    if ss == [] then 0
    else SubsampleTotal(ss[..|ss| - 1]) + ss[|ss| - 1].bytesOfClearData + ss[|ss| - 1].bytesOfProtectedData
  }

  lemma {:induction false} SubsampleTotalPrefix(ss: seq<SubSample>, j: nat)
    requires j <= |ss|
    ensures SubsampleTotal(ss[..j]) <= SubsampleTotal(ss)
    decreases |ss|
  {
    if j < |ss| {
      assert ss[..|ss| - 1][..j] == ss[..j];
      SubsampleTotalPrefix(ss[..|ss| - 1], j);
    } else {
      assert ss[..j] == ss;
    }
  }

  /** Span `j` starts where span `j - 1` ends, and ends within the listed bytes. */
  lemma SpanNext(ss: seq<SubSample>, j: nat)
    requires j < |ss|
    ensures SubsampleTotal(ss[..j + 1]) == SubsampleTotal(ss[..j]) + ss[j].bytesOfClearData + ss[j].bytesOfProtectedData
    ensures SubsampleTotal(ss[..j + 1]) <= SubsampleTotal(ss)
  {
    assert ss[..j + 1][..j] == ss[..j];
    SubsampleTotalPrefix(ss, j + 1);
  }

  /**
   * One step of the subsample walk: after the output so far, copy the entry's
   * clear bytes found at `pos`, then decrypt its protected bytes that follow.
   */
  function Extend(ctr: Ctr, data: seq<byte>, key: seq<byte>, iv: seq<byte>, sofar: Result<seq<byte>, string>,
                  pos: nat, s: SubSample): Result<seq<byte>, string>
    requires pos + s.bytesOfClearData + s.bytesOfProtectedData <= |data|
  {
    match sofar
    case Failure(e) => Failure(e)
    case Success(out) =>
      var mid := pos + s.bytesOfClearData;
      match ctr(data[mid..mid + s.bytesOfProtectedData], key, iv)
      case Failure(e) => Failure(e)
      case Success(plain) => Success(out + data[pos..mid] + plain)
  }

  /** A step after a successful prefix fails exactly when the entry's decryption does. */
  lemma ExtendStep(ctr: Ctr, data: seq<byte>, key: seq<byte>, iv: seq<byte>, out: seq<byte>, pos: nat, s: SubSample)
    requires pos + s.bytesOfClearData + s.bytesOfProtectedData <= |data|
    ensures var mid := pos + s.bytesOfClearData;
      var c := ctr(data[mid..mid + s.bytesOfProtectedData], key, iv);
      Extend(ctr, data, key, iv, Success(out), pos, s)
        == if c.Success? then Success(out + data[pos..mid] + c.value) else Failure(c.error)
  {
  }

  /**
   * The subsample walk: with the spans before the last one done, copy the last
   * entry's clear bytes and decrypt its protected bytes, always with the same
   * key and iv. The first failing decryption is the result.
   */
  function Walk(ctr: Ctr, data: seq<byte>, key: seq<byte>, iv: seq<byte>, ss: seq<SubSample>): Result<seq<byte>, string>
    requires SubsampleTotal(ss) <= |data|
  {
    if ss == [] then Success([])
    else
      var front := ss[..|ss| - 1];
      Extend(ctr, data, key, iv, Walk(ctr, data, key, iv, front), SubsampleTotal(front), ss[|ss| - 1])
  }

  /** One more entry of the list: its clear bytes, then its decrypted protected bytes. */
  lemma WalkNext(ctr: Ctr, data: seq<byte>, key: seq<byte>, iv: seq<byte>, ss: seq<SubSample>, j: nat)
    requires j < |ss| && SubsampleTotal(ss) <= |data|
    ensures SubsampleTotal(ss[..j]) + ss[j].bytesOfClearData + ss[j].bytesOfProtectedData == SubsampleTotal(ss[..j + 1]) <= |data|
    ensures Walk(ctr, data, key, iv, ss[..j + 1])
         == Extend(ctr, data, key, iv, Walk(ctr, data, key, iv, ss[..j]), SubsampleTotal(ss[..j]), ss[j])
  {
    SpanNext(ss, j);
    assert ss[..j + 1][..j] == ss[..j];
  }

  /** Entry `j` of the list occupies bytes `pos` to `pos + clear + protected` of the data. */
  lemma WalkBounds(ss: seq<SubSample>, j: nat, pos: nat, dataLen: nat)
    requires j < |ss| && SubsampleTotal(ss) <= dataLen && pos == SubsampleTotal(ss[..j])
    ensures SubsampleTotal(ss[..j + 1]) == pos + ss[j].bytesOfClearData + ss[j].bytesOfProtectedData <= dataLen
  {
    SpanNext(ss, j);
  }

  /** When entry `j` decrypts, the walk one entry further appends its clear bytes and its decryption. */
  lemma WalkStepSucceeds(ctr: Ctr, data: seq<byte>, key: seq<byte>, iv: seq<byte>, ss: seq<SubSample>, j: nat,
                         out: seq<byte>, pos: nat, mid: nat, end: nat, plain: seq<byte>)
    requires j < |ss| && SubsampleTotal(ss) <= |data|
    requires pos == SubsampleTotal(ss[..j]) && mid == pos + ss[j].bytesOfClearData && end == mid + ss[j].bytesOfProtectedData
    requires SubsampleTotal(ss[..j + 1]) == end <= |data| && Walk(ctr, data, key, iv, ss[..j]) == Success(out)
    requires ctr(data[mid..end], key, iv) == Success(plain)
    ensures Walk(ctr, data, key, iv, ss[..j + 1]) == Success(out + data[pos..mid] + plain)
  {
    WalkNext(ctr, data, key, iv, ss, j);
    ExtendStep(ctr, data, key, iv, out, pos, ss[j]);
  }

  /** When entry `j` does not decrypt, the whole walk fails with its error. */
  lemma WalkStepFails(ctr: Ctr, data: seq<byte>, key: seq<byte>, iv: seq<byte>, ss: seq<SubSample>, j: nat,
                      out: seq<byte>, pos: nat, mid: nat, end: nat, e: string)
    requires j < |ss| && SubsampleTotal(ss) <= |data|
    requires pos == SubsampleTotal(ss[..j]) && mid == pos + ss[j].bytesOfClearData && end == mid + ss[j].bytesOfProtectedData
    requires SubsampleTotal(ss[..j + 1]) == end <= |data| && Walk(ctr, data, key, iv, ss[..j]) == Success(out)
    requires ctr(data[mid..end], key, iv) == Failure(e)
    ensures Walk(ctr, data, key, iv, ss) == Failure(e)
  {
    WalkNext(ctr, data, key, iv, ss, j);
    ExtendStep(ctr, data, key, iv, out, pos, ss[j]);
    assert Walk(ctr, data, key, iv, ss[..j + 1]) == Failure(e);
    WalkFailureSticks(ctr, data, key, iv, ss, j + 1);
  }

  /** Once the walk has failed on a prefix of the list, the whole walk fails the same way. */
  lemma {:induction false} WalkFailureSticks(ctr: Ctr, data: seq<byte>, key: seq<byte>, iv: seq<byte>, ss: seq<SubSample>, j: nat)
    requires j <= |ss| && SubsampleTotal(ss) <= |data|
    requires SubsampleTotal(ss[..j]) <= |data|
    requires Walk(ctr, data, key, iv, ss[..j]).Failure?
    ensures Walk(ctr, data, key, iv, ss) == Walk(ctr, data, key, iv, ss[..j])
    decreases |ss|
  {
    if j < |ss| {
      var front := ss[..|ss| - 1];
      assert front[..j] == ss[..j];
      SubsampleTotalPrefix(ss, |ss| - 1);
      WalkFailureSticks(ctr, data, key, iv, front, j);
    } else {
      assert ss[..j] == ss;
    }
  }

  /** With a length-preserving decryptor the walk's output covers exactly the listed bytes. */
  lemma {:induction false} WalkLength(ctr: Ctr, data: seq<byte>, key: seq<byte>, iv: seq<byte>, ss: seq<SubSample>)
    requires LengthPreserving(ctr) && SubsampleTotal(ss) <= |data|
    ensures Walk(ctr, data, key, iv, ss).Success? ==> |Walk(ctr, data, key, iv, ss).value| == SubsampleTotal(ss)
  {
    if ss != [] {
      SubsampleTotalPrefix(ss, |ss| - 1);
      WalkLength(ctr, data, key, iv, ss[..|ss| - 1]);
    }
  }

  /** Where span `j` starts: after every clear and protected byte of the entries before it. */
  function SpanStart(ss: seq<SubSample>, j: nat): nat
    requires j <= |ss|
  {
    SubsampleTotal(ss[..j])
  }

  /**
   * Span `j`'s clear bytes appear unchanged at its offset, followed by the
   * decryption of its protected bytes under the sample's one key and iv.
   */
  ghost predicate SpanDecrypted(ctr: Ctr, data: seq<byte>, key: seq<byte>, iv: seq<byte>, ss: seq<SubSample>, out: seq<byte>, j: nat)
    requires j < |ss|
  {
    var pos := SpanStart(ss, j);
    var mid := pos + ss[j].bytesOfClearData;
    var end := mid + ss[j].bytesOfProtectedData;
    && end <= |data| && end <= |out|
    && out[pos..mid] == data[pos..mid]
    && ctr(data[mid..end], key, iv) == Success(out[mid..end])
  }

  /**
   * The walk's output is the spans in order: clear bytes copied, protected bytes
   * decrypted, nothing else.
   */
  lemma {:induction false} WalkSpans(ctr: Ctr, data: seq<byte>, key: seq<byte>, iv: seq<byte>, ss: seq<SubSample>)
    requires LengthPreserving(ctr) && SubsampleTotal(ss) <= |data|
    ensures var r := Walk(ctr, data, key, iv, ss);
      r.Success? ==> |r.value| == SubsampleTotal(ss) && forall j | 0 <= j < |ss| :: SpanDecrypted(ctr, data, key, iv, ss, r.value, j)
  {
    WalkLength(ctr, data, key, iv, ss);
    if ss != [] {
      var front := ss[..|ss| - 1];
      SubsampleTotalPrefix(ss, |ss| - 1);
      WalkSpans(ctr, data, key, iv, front);
      var r := Walk(ctr, data, key, iv, ss);
      if r.Success? {
        var out := Walk(ctr, data, key, iv, front).value;
        LastSpan(ctr, data, key, iv, ss, out, r.value);
        forall j | 0 <= j < |ss| - 1 ensures SpanDecrypted(ctr, data, key, iv, ss, r.value, j) {
          SpanInFront(ctr, data, key, iv, ss, front, out, r.value, j);
        }
      }
    }
  }

  /** Span `j`'s protected bytes lie within the data and the decryptor accepts them. */
  ghost predicate SpanDecrypts(ctr: Ctr, data: seq<byte>, key: seq<byte>, iv: seq<byte>, ss: seq<SubSample>, j: nat)
    requires j < |ss|
  {
    var mid := SpanStart(ss, j) + ss[j].bytesOfClearData;
    var end := mid + ss[j].bytesOfProtectedData;
    end <= |data| && ctr(data[mid..end], key, iv).Success?
  }

  /** The walk succeeds exactly when the decryptor accepts every protected span. */
  lemma {:induction false} WalkSucceeds(ctr: Ctr, data: seq<byte>, key: seq<byte>, iv: seq<byte>, ss: seq<SubSample>)
    requires SubsampleTotal(ss) <= |data|
    ensures Walk(ctr, data, key, iv, ss).Success? <==> forall j | 0 <= j < |ss| :: SpanDecrypts(ctr, data, key, iv, ss, j)
  {
    if ss != [] {
      var front := ss[..|ss| - 1];
      SubsampleTotalPrefix(ss, |ss| - 1);
      WalkSucceeds(ctr, data, key, iv, front);
      forall j | 0 <= j < |front|
        ensures SpanDecrypts(ctr, data, key, iv, front, j) == SpanDecrypts(ctr, data, key, iv, ss, j)
      {
        assert front[..j] == ss[..j];
      }
      LastSpanDecrypts(ctr, data, key, iv, ss, Walk(ctr, data, key, iv, front), SubsampleTotal(front));
    }
  }

  /** The last step of the walk succeeds exactly when the front did and the last span decrypts. */
  lemma LastSpanDecrypts(ctr: Ctr, data: seq<byte>, key: seq<byte>, iv: seq<byte>, ss: seq<SubSample>,
                         sofar: Result<seq<byte>, string>, pos: nat)
    requires ss != [] && pos == SpanStart(ss, |ss| - 1)
    requires pos + ss[|ss| - 1].bytesOfClearData + ss[|ss| - 1].bytesOfProtectedData <= |data|
    ensures Extend(ctr, data, key, iv, sofar, pos, ss[|ss| - 1]).Success?
        <==> sofar.Success? && SpanDecrypts(ctr, data, key, iv, ss, |ss| - 1)
  {
  }

  /** A span of the front of the list is untouched by appending the last entry's output. */
  lemma SpanInFront(ctr: Ctr, data: seq<byte>, key: seq<byte>, iv: seq<byte>, ss: seq<SubSample>, front: seq<SubSample>,
                    out: seq<byte>, whole: seq<byte>, j: nat)
    requires ss != [] && front == ss[..|ss| - 1] && j < |front|
    requires SpanDecrypted(ctr, data, key, iv, front, out, j)
    requires |out| <= |whole| && whole[..|out|] == out
    ensures SpanDecrypted(ctr, data, key, iv, ss, whole, j)
  {
    assert front[..j] == ss[..j];
    var pos := SpanStart(ss, j);
    var mid := pos + ss[j].bytesOfClearData;
    var end := mid + ss[j].bytesOfProtectedData;
    forall k | pos <= k < end ensures whole[k] == out[k] {
      assert whole[..|out|][k] == whole[k];
    }
    assert whole[pos..mid] == out[pos..mid];
    assert whole[mid..end] == out[mid..end];
  }

  /** A successful step keeps the output so far and appends the entry's clear bytes, then its decryption. */
  lemma ExtendSpan(ctr: Ctr, data: seq<byte>, key: seq<byte>, iv: seq<byte>, out: seq<byte>, s: SubSample, whole: seq<byte>)
    requires |out| + s.bytesOfClearData + s.bytesOfProtectedData <= |data|
    requires Extend(ctr, data, key, iv, Success(out), |out|, s) == Success(whole)
    requires |whole| == |out| + s.bytesOfClearData + s.bytesOfProtectedData
    ensures var mid := |out| + s.bytesOfClearData;
      var end := mid + s.bytesOfProtectedData;
      && whole[..|out|] == out
      && whole[|out|..mid] == data[|out|..mid]
      && ctr(data[mid..end], key, iv) == Success(whole[mid..end])
  {
    var mid := |out| + s.bytesOfClearData;
    var end := mid + s.bytesOfProtectedData;
    var cipher := data[mid..end];
    var res := ctr(cipher, key, iv);
    assert res.Success?;
    assert whole == out + data[|out|..mid] + res.value;
    assert whole[..|out|] == out;
    assert whole[|out|..mid] == data[|out|..mid];
    assert whole[mid..end] == res.value;
  }

  /** The last span is what the last step of the walk appends, after the front's output. */
  lemma LastSpan(ctr: Ctr, data: seq<byte>, key: seq<byte>, iv: seq<byte>, ss: seq<SubSample>, out: seq<byte>, whole: seq<byte>)
    requires ss != [] && |out| == SpanStart(ss, |ss| - 1)
    requires |whole| == |out| + ss[|ss| - 1].bytesOfClearData + ss[|ss| - 1].bytesOfProtectedData <= |data|
    requires Extend(ctr, data, key, iv, Success(out), |out|, ss[|ss| - 1]) == Success(whole)
    ensures |out| <= |whole| && whole[..|out|] == out
    ensures SpanDecrypted(ctr, data, key, iv, ss, whole, |ss| - 1)
  {
    ExtendSpan(ctr, data, key, iv, out, ss[|ss| - 1], whole);
  }

  /** Whether a sample can be decrypted without an index or a slice running off its data. */
  predicate SampleInRange(i: nat, samples: seq<FullSample>, senc: SencBox)
  {
    && i < |samples| && i < |senc.ivs|
    && (|senc.subSamples| != 0 ==> i < |senc.subSamples| && SubsampleTotal(senc.subSamples[i]) <= |samples[i].data|)
  }

  /**
   * decryptSample as a value: with a subsample table the sample's own list is
   * walked; without one the whole sample is a single protected span. Only the
   * bytes change.
   */
  function SampleDecryption(ctr: Ctr, i: nat, samples: seq<FullSample>, key: seq<byte>, senc: SencBox): (r: Result<FullSample, string>)
    requires SampleInRange(i, samples, senc)
    ensures r.Success? ==> r.value.sample == samples[i].sample && r.value.decodeTime == samples[i].decodeTime
  {
    var data := samples[i].data;
    var iv := NormalizeIV(senc.ivs[i]);
    var out := if |senc.subSamples| != 0 then Walk(ctr, data, key, iv, senc.subSamples[i]) else ctr(data, key, iv);
    match out
    case Failure(e) => Failure(e)
    case Success(d) => Success(FullSample(samples[i].sample, samples[i].decodeTime, d))
  }

  /**
   * The bytes of a decrypted sample: without a subsample table the decryption of
   * the whole sample; with one, the spans of the sample's list in order, and as
   * many bytes as the list accounts for, so trailing bytes are dropped.
   */
  lemma SampleDecryptionBytes(ctr: Ctr, i: nat, samples: seq<FullSample>, key: seq<byte>, senc: SencBox)
    requires LengthPreserving(ctr) && SampleInRange(i, samples, senc)
    ensures var r := SampleDecryption(ctr, i, samples, key, senc);
      var data, iv := samples[i].data, NormalizeIV(senc.ivs[i]);
      && (|senc.subSamples| == 0 ==>
            (r.Success? <==> ctr(data, key, iv).Success?)
            && (r.Success? ==> r.value.data == ctr(data, key, iv).value && |r.value.data| == |data|))
      && (|senc.subSamples| != 0 ==>
            var ss := senc.subSamples[i];
            && (r.Success? <==> forall j | 0 <= j < |ss| :: SpanDecrypts(ctr, data, key, iv, ss, j))
            && (r.Success? ==> |r.value.data| == SubsampleTotal(ss)
                               && forall j | 0 <= j < |ss| :: SpanDecrypted(ctr, data, key, iv, ss, r.value.data, j)))
  {
    if |senc.subSamples| != 0 {
      WalkSpans(ctr, samples[i].data, key, NormalizeIV(senc.ivs[i]), senc.subSamples[i]);
      WalkSucceeds(ctr, samples[i].data, key, NormalizeIV(senc.ivs[i]), senc.subSamples[i]);
    }
  }

  /** The subsample loop of decryptSample: each clear span copied, each protected span decrypted. */
  method DecryptSubsamples(ctr: Ctr, data: seq<byte>, key: seq<byte>, iv: seq<byte>, ss: seq<SubSample>)
    returns (r: Result<seq<byte>, string>)
    requires SubsampleTotal(ss) <= |data|
    ensures r == Walk(ctr, data, key, iv, ss)
  {
    var outData: seq<byte> := [];
    var pos: nat := 0;
    for j := 0 to |ss|
      invariant pos == SubsampleTotal(ss[..j]) <= |data|
      invariant Walk(ctr, data, key, iv, ss[..j]) == Success(outData)
    {
      WalkBounds(ss, j, pos, |data|);
      ghost var before, start := outData, pos;
      var nrClear := ss[j].bytesOfClearData as nat;
      var nrEnc := ss[j].bytesOfProtectedData as nat;
      outData := outData + data[pos..pos + nrClear];
      pos := pos + nrClear;
      var cryptOut := ctr(data[pos..pos + nrEnc], key, iv);
      if cryptOut.Failure? {
        WalkStepFails(ctr, data, key, iv, ss, j, before, start, pos, pos + nrEnc, cryptOut.error);
        return Failure(cryptOut.error);
      }
      WalkStepSucceeds(ctr, data, key, iv, ss, j, before, start, pos, pos + nrEnc, cryptOut.value);
      outData := outData + cryptOut.value;
      pos := pos + nrEnc;
    }
    assert ss[..|ss|] == ss;
    return Success(outData);
  }

  /**
   * decryptSample: with a subsample table the sample's list is walked, otherwise
   * the whole sample is decrypted; the metadata is carried over.
   */
  method DecryptSample(ctr: Ctr, i: nat, samples: seq<FullSample>, key: seq<byte>, senc: SencBox)
    returns (r: Result<FullSample, string>)
    requires SampleInRange(i, samples, senc)
    ensures r == SampleDecryption(ctr, i, samples, key, senc)
  {
    var data := samples[i].data;
    var iv := NormalizeIV(senc.ivs[i]);
    var outData: seq<byte> := [];
    if |senc.subSamples| != 0 {
      var walked := DecryptSubsamples(ctr, data, key, iv, senc.subSamples[i]);
      if walked.Failure? {
        return Failure(walked.error);
      }
      outData := walked.value;
    } else {
      var cryptOut := ctr(data, key, iv);
      if cryptOut.Failure? {
        return Failure(cryptOut.error);
      }
      outData := outData + cryptOut.value;
      assert outData == cryptOut.value;
    }
    return Success(FullSample(samples[i].sample, samples[i].decodeTime, outData));
  }

  /**
   * One worked case: a 32-byte sample with one subsample of 8 clear and 24
   * protected bytes and an 8-byte IV keeps its first 8 bytes and has the other
   * 24 decrypted under the IV padded to 16 bytes.
   */
  lemma OneSubsampleScenario(ctr: Ctr, sample: FullSample, key: seq<byte>, iv: seq<byte>)
    requires LengthPreserving(ctr) && |sample.data| == 32 && |iv| == 8
    ensures var senc := SencBox([iv], [[SubSample(8, 24)]]);
      var r := SampleDecryption(ctr, 0, [sample], key, senc);
      && (r.Success? <==> ctr(sample.data[8..], key, iv + Zeros(8)).Success?)
      && (r.Success? ==> r.value.data == sample.data[..8] + ctr(sample.data[8..], key, iv + Zeros(8)).value)
  {
    var ss := [SubSample(8, 24)];
    var senc := SencBox([iv], [ss]);
    assert ss[..|ss| - 1] == [];
    assert SubsampleTotal(ss) == 32;
    assert [sample][0] == sample;
    assert NormalizeIV(iv) == iv + Zeros(8);
    var plain := ctr(sample.data[8..32], key, iv + Zeros(8));
    assert sample.data[8..32] == sample.data[8..];
    assert Walk(ctr, sample.data, key, iv + Zeros(8), ss) ==
      if plain.Success? then Success([] + sample.data[0..8] + plain.value) else Failure(plain.error);
    assert sample.data[0..8] == sample.data[..8];
  }

  // ---------------------------------------------------------- one fragment

  /** Samples 0 to `n - 1` are all in range and all decrypt. */
  predicate DecryptsBefore(ctr: Ctr, samples: seq<FullSample>, key: seq<byte>, senc: SencBox, n: nat)
  {
    forall j | 0 <= j < n :: SampleInRange(j, samples, senc) && SampleDecryption(ctr, j, samples, key, senc).Success?
  }

  /**
   * Whether every sample the loop reaches can be decrypted without running off
   * its data: the loop reaches a sample only when all earlier ones decrypted.
   */
  predicate FragmentInRange(ctr: Ctr, samples: seq<FullSample>, key: seq<byte>, senc: SencBox)
  {
    forall i | 0 <= i < |samples| :: DecryptsBefore(ctr, samples, key, senc, i) ==> SampleInRange(i, samples, senc)
  }

  /** The first `n` samples decrypted in order; the first failure is the result. */
  function DecryptFirst(ctr: Ctr, samples: seq<FullSample>, key: seq<byte>, senc: SencBox, n: nat): (r: Result<seq<FullSample>, string>)
    requires n <= |samples| && FragmentInRange(ctr, samples, key, senc)
    ensures r.Success? ==> DecryptsBefore(ctr, samples, key, senc, n)
  {
    if n == 0 then Success([])
    else
      match DecryptFirst(ctr, samples, key, senc, n - 1)
      case Failure(e) => Failure(e)
      case Success(out) =>
        assert SampleInRange(n - 1, samples, senc);
        match SampleDecryption(ctr, n - 1, samples, key, senc)
        case Failure(e) => Failure(e)
        case Success(s) => Success(out + [s])
  }

  /**
   * Decrypting the samples in order gives one output per sample, output i being
   * sample i decrypted, exactly when every sample decrypts; otherwise the error
   * is that of the first sample that does not, every sample before it being in
   * range and decrypting.
   */
  lemma {:induction false} DecryptFirstSpec(ctr: Ctr, samples: seq<FullSample>, key: seq<byte>, senc: SencBox, n: nat)
    requires n <= |samples| && FragmentInRange(ctr, samples, key, senc)
    ensures var r := DecryptFirst(ctr, samples, key, senc, n);
      && (r.Success? <==> DecryptsBefore(ctr, samples, key, senc, n))
      && (r.Success? ==> |r.value| == n && forall i | 0 <= i < n :: r.value[i] == SampleDecryption(ctr, i, samples, key, senc).value)
      && (r.Failure? ==> exists f | 0 <= f < n ::
            && DecryptsBefore(ctr, samples, key, senc, f) && SampleInRange(f, samples, senc)
            && SampleDecryption(ctr, f, samples, key, senc) == Failure(r.error))
  {
    if n > 0 {
      DecryptFirstSpec(ctr, samples, key, senc, n - 1);
      var prev := DecryptFirst(ctr, samples, key, senc, n - 1);
      if prev.Failure? {
        assert DecryptFirst(ctr, samples, key, senc, n) == prev;
      } else {
        assert SampleInRange(n - 1, samples, senc);
        var last := SampleDecryption(ctr, n - 1, samples, key, senc);
        if last.Failure? {
          assert DecryptFirst(ctr, samples, key, senc, n) == Failure(last.error);
        } else {
          assert DecryptFirst(ctr, samples, key, senc, n) == Success(prev.value + [last.value]);
        }
      }
    }
  }

  /**
   * decodeFragment: picks the traf of the track, takes its senc, and decrypts
   * the fragment's samples in order, stopping at the first error. A fragment
   * without the track's traf is excluded, since findTraf panics on it.
   */
  method DecodeFragment(ctr: Ctr, trafs: seq<Traf>, trackID: uint32, samples: seq<FullSample>, key: seq<byte>)
    returns (r: Result<seq<FullSample>, string>)
    requires TrafFor(trafs, trackID).Some?
    requires FragmentInRange(ctr, samples, key, TrafFor(trafs, trackID).value.senc)
    ensures r == DecryptFirst(ctr, samples, key, TrafFor(trafs, trackID).value.senc, |samples|)
  {
    var traf := FindTraf(trafs, trackID);
    var senc := traf.value.senc;
    var outSamples: seq<FullSample> := [];
    for i := 0 to |samples|
      invariant DecryptFirst(ctr, samples, key, senc, i) == Success(outSamples)
    {
      assert SampleInRange(i, samples, senc);
      var decSample := DecryptSample(ctr, i, samples, key, senc);
      if decSample.Failure? {
        DecryptFirstSticks(ctr, samples, key, senc, i + 1, |samples|);
        return Failure(decSample.error);
      }
      outSamples := outSamples + [decSample.value];
    }
    return Success(outSamples);
  }

  /**
   * A fragment whose first sample fails is admitted even when the next sample
   * has no IV: the loop stops before it, with the first sample's error.
   */
  lemma FirstFailureStops(ctr: Ctr, s0: FullSample, s1: FullSample, key: seq<byte>, iv0: seq<byte>)
    requires ctr(s0.data, key, NormalizeIV(iv0)).Failure?
    ensures FragmentInRange(ctr, [s0, s1], key, SencBox([iv0], []))
    ensures DecryptFirst(ctr, [s0, s1], key, SencBox([iv0], []), 2) == Failure(ctr(s0.data, key, NormalizeIV(iv0)).error)
  {
    var samples, senc := [s0, s1], SencBox([iv0], []);
    assert SampleInRange(0, samples, senc);
    assert SampleDecryption(ctr, 0, samples, key, senc).Failure?;
    assert !DecryptsBefore(ctr, samples, key, senc, 1);
    assert DecryptFirst(ctr, samples, key, senc, 1) == Failure(ctr(s0.data, key, NormalizeIV(iv0)).error);
  }

  /** Once a prefix of the samples has failed, every longer prefix fails the same way. */
  lemma {:induction false} DecryptFirstSticks(ctr: Ctr, samples: seq<FullSample>, key: seq<byte>, senc: SencBox, m: nat, n: nat)
    requires m <= n <= |samples| && FragmentInRange(ctr, samples, key, senc)
    requires DecryptFirst(ctr, samples, key, senc, m).Failure?
    ensures DecryptFirst(ctr, samples, key, senc, n) == DecryptFirst(ctr, samples, key, senc, m)
    decreases n
  {
    if m < n {
      DecryptFirstSticks(ctr, samples, key, senc, m, n - 1);
    }
  }
}
