/**
 The wire framing of `hil/protocol/src/framing.rs`: one frame is a fixed header, a payload and
 their CRC-32C, COBS encoded between zero delimiters.
 */
module Framing {
  import opened Bytes
  import opened Wrappers
  import opened Crc32c
  import Cobs

  type Octets = seq<bv8>

  const MAX_POSTCARD_BYTES := 560
  const WIRE_MAGIC: Octets := [0x4F, 0x52, 0x48, 0x4C]
  const FRAMING_VERSION: bv8 := 2
  const WIRE_HEADER_BYTES := 40
  const CHECKSUM_BYTES := 4
  const MAX_RAW_FRAME_BYTES := WIRE_HEADER_BYTES + MAX_POSTCARD_BYTES + CHECKSUM_BYTES
  /** `cobs::max_encoding_length(MAX_RAW_FRAME_BYTES)`. */
  const MAX_COBS_FRAME_BYTES := 607

  datatype WireKind = Command | Event
  {
    function Code(): bv8 {
      match this
      case Command => 1
      case Event => 2
    }
  }

  /** The fields of a frame; the payload is opaque. */
  datatype Frame = Frame(bootId: bv64, messageSequence: bv32, sessionId: bv64, requestId: bv32,
                         key: Octets, payload: Octets)

  datatype DecodeError = Cobs | TooShort | Magic | FramingVersion | MessageKind | PayloadLength | Checksum

  /** A frame the header layout can carry. */
  ghost predicate Framable(f: Frame) {
    |f.key| == 8 && |f.payload| < 65536
  }

  function Le64(x: bv64): (bytes: Octets)
    ensures |bytes| == 8
  {
    ToLe(Low(x)) + ToLe(High(x))
  }

  function FromLe64(bytes: Octets): bv64
    requires |bytes| == 8
  {
    Pair(FromLe(bytes[..4]), FromLe(bytes[4..]))
  }

  lemma Le64RoundTrip(x: bv64)
    ensures FromLe64(Le64(x)) == x
  {
    assert Le64(x)[..4] == ToLe(Low(x)) && Le64(x)[4..] == ToLe(High(x));
    LeRoundTrip(Low(x));
    LeRoundTrip(High(x));
    PairOfHalves(x);
  }

  lemma Le64Inverse(bytes: Octets)
    requires |bytes| == 8
    ensures Le64(FromLe64(bytes)) == bytes
  {
    HalvesOfPair(FromLe(bytes[..4]), FromLe(bytes[4..]));
    LeInverse(bytes[..4]);
    LeInverse(bytes[4..]);
    assert bytes[..4] + bytes[4..] == bytes;
  }

  // The header as its fields in wire order: 6 bytes of preamble, then five fields and the length.

  function Preamble(kind: WireKind): (bytes: Octets)
    ensures |bytes| == 6
  {
    WIRE_MAGIC + [FRAMING_VERSION, kind.Code()]
  }

  function Header(kind: WireKind, f: Frame): (bytes: Octets)
    requires Framable(f)
    ensures |bytes| == WIRE_HEADER_BYTES
  {
    Preamble(kind) + Le64(f.bootId) + ToLe(f.messageSequence) + Le64(f.sessionId) + ToLe(f.requestId)
    + f.key + Le16(|f.payload|)
  }

  /** The bytes the checksum protects. */
  function Protected(kind: WireKind, f: Frame): Octets
    requires Framable(f)
  {
    Header(kind, f) + f.payload
  }

  function Sealed(bytes: Octets): Octets {
    bytes + ToLe(Crc32c.Checksum(bytes))
  }

  function Raw(kind: WireKind, f: Frame): Octets
    requires Framable(f)
  {
    Sealed(Protected(kind, f))
  }

  /** What `FrameEncoder::frame` puts on the wire. */
  function Wire(kind: WireKind, f: Frame): Octets
    requires Framable(f)
  {
    [0, 0] + Cobs.Encode(Raw(kind, f)) + [0]
  }

  /** The bytes after the first `length` are the checksum of those. */
  predicate Intact(raw: Octets, length: nat)
    requires length <= |raw|
  {
    Crc32c.Checksum(raw[..length]) == FromLe(raw[length..])
  }

  /** `FrameDecoder::decode` on COBS-decoded bytes. */
  function Parse(kind: WireKind, raw: Octets): Result<Frame, DecodeError> {
    if |raw| < WIRE_HEADER_BYTES + CHECKSUM_BYTES then Err(TooShort)
    else if raw[..4] != WIRE_MAGIC then Err(Magic)
    else if raw[4] != FRAMING_VERSION then Err(FramingVersion)
    else if raw[5] != kind.Code() then Err(MessageKind)
    else
      var length := WIRE_HEADER_BYTES + FromLe16(raw[38..40]);
      if length + CHECKSUM_BYTES != |raw| then Err(PayloadLength)
      else if !Intact(raw, length) then Err(DecodeError.Checksum)
      else Ok(Fields(raw, length))
  }

  function Fields(raw: Octets, length: nat): Frame
    requires WIRE_HEADER_BYTES <= length <= |raw|
  {
    Frame(FromLe64(raw[6..14]), FromLe(raw[14..18]), FromLe64(raw[18..26]), FromLe(raw[26..30]),
          raw[30..38], raw[WIRE_HEADER_BYTES..length])
  }

  function Receive(kind: WireKind, body: Octets): Result<Frame, DecodeError> {
    var raw := Cobs.Decode(body);
    if raw.None? then Err(DecodeError.Cobs) else Parse(kind, raw.value)
  }

  /** Where each header field lies. */
  lemma HeaderFields(kind: WireKind, f: Frame)
    requires Framable(f)
    ensures var h := Header(kind, f);
            && h[..6] == Preamble(kind) && h[6..14] == Le64(f.bootId) && h[14..18] == ToLe(f.messageSequence)
            && h[18..26] == Le64(f.sessionId) && h[26..30] == ToLe(f.requestId)
            && h[30..38] == f.key && h[38..40] == Le16(|f.payload|)
  {
  }

  /** The decoder's header fields are those of the frame, and no other frame has them. */
  lemma FieldsOfHeader(kind: WireKind, f: Frame)
    requires Framable(f)
    ensures Fields(Header(kind, f) + f.payload, WIRE_HEADER_BYTES + |f.payload|) == f
  {
    var h := Header(kind, f);
    var p := h + f.payload;
    HeaderFields(kind, f);
    assert p[6..14] == h[6..14] && p[14..18] == h[14..18] && p[18..26] == h[18..26];
    assert p[26..30] == h[26..30] && p[30..38] == h[30..38] && p[40..] == f.payload;
    Le64RoundTrip(f.bootId);
    LeRoundTrip(f.messageSequence);
    Le64RoundTrip(f.sessionId);
    LeRoundTrip(f.requestId);
  }

  /** An encoded frame parses back to itself in its own direction, and is refused in the other. */
  lemma ParseOfRaw(kind: WireKind, sent: WireKind, f: Frame)
    requires Framable(f)
    ensures Parse(kind, Raw(sent, f)) == if kind == sent then Ok(f) else Err(MessageKind)
  {
    var p := Protected(sent, f);
    var check := ToLe(Crc32c.Checksum(p));
    RawStart(sent, f);
    Le16RoundTrip(|f.payload|);
    SealedIsIntact(p);
    FieldsOfHeader(sent, f);
    FieldsOfPrefix(p, check, WIRE_HEADER_BYTES + |f.payload|);
  }

  lemma RawStart(sent: WireKind, f: Frame)
    requires Framable(f)
    ensures var raw := Raw(sent, f);
            |raw| == WIRE_HEADER_BYTES + |f.payload| + CHECKSUM_BYTES
            && raw[..4] == WIRE_MAGIC && raw[4] == FRAMING_VERSION && raw[5] == sent.Code()
            && raw[38..40] == Le16(|f.payload|)
  {
    var raw, h := Raw(sent, f), Header(sent, f);
    HeaderFields(sent, f);
    assert raw[..6] == h[..6] == Preamble(sent);
    assert raw[..4] == Preamble(sent)[..4] && raw[4] == Preamble(sent)[4] && raw[5] == Preamble(sent)[5];
    assert raw[38..40] == h[38..40];
  }

  lemma SealedIsIntact(p: Octets)
    ensures |Sealed(p)| == |p| + CHECKSUM_BYTES && Intact(Sealed(p), |p|)
  {
    var raw := Sealed(p);
    assert raw[..|p|] == p && raw[|p|..] == ToLe(Crc32c.Checksum(p));
    LeRoundTrip(Crc32c.Checksum(p));
  }

  lemma FieldsOfPrefix(p: Octets, check: Octets, length: nat)
    requires WIRE_HEADER_BYTES <= length == |p|
    ensures Fields(p + check, length) == Fields(p, length)
  {
    var raw := p + check;
    assert raw[6..14] == p[6..14] && raw[14..18] == p[14..18] && raw[18..26] == p[18..26];
    assert raw[26..30] == p[26..30] && raw[30..38] == p[30..38] && raw[40..length] == p[40..length];
  }

  /** Only the encoding of a frame parses to it: everything accepted is intact. */
  lemma RawOfParse(kind: WireKind, raw: Octets)
    requires Parse(kind, raw).Ok?
    ensures Framable(Parse(kind, raw).value) && raw == Raw(kind, Parse(kind, raw).value)
  {
    var f := Parse(kind, raw).value;
    var length := |raw| - CHECKSUM_BYTES;
    var p, check := raw[..length], raw[length..];
    assert raw == p + check;
    LeInverse(check);
    HeaderOfFields(kind, raw, length);
    assert p == p[..40] + p[40..];
  }

  lemma HeaderOfFields(kind: WireKind, raw: Octets, length: nat)
    requires WIRE_HEADER_BYTES <= length <= |raw| && length - WIRE_HEADER_BYTES == FromLe16(raw[38..40])
    requires raw[..4] == WIRE_MAGIC && raw[4] == FRAMING_VERSION && raw[5] == kind.Code()
    ensures Framable(Fields(raw, length))
    ensures raw[..length] == Header(kind, Fields(raw, length)) + raw[40..length]
  {
    Le64Inverse(raw[6..14]);
    LeInverse(raw[14..18]);
    Le64Inverse(raw[18..26]);
    LeInverse(raw[26..30]);
    Le16Inverse(raw[38..40]);
    assert raw[..6] == Preamble(kind);
    HeaderPieces(raw);
    assert raw[..length] == raw[..40] + raw[40..length];
  }

  lemma HeaderPieces(raw: Octets)
    requires |raw| >= 40
    ensures raw[..40] == raw[..6] + raw[6..14] + raw[14..18] + raw[18..26] + raw[26..30] + raw[30..38] + raw[38..40]
  {
  }

  /** A frame is accepted exactly when its bytes are that frame's encoding. */
  lemma ParseIff(kind: WireKind, raw: Octets, f: Frame)
    ensures Parse(kind, raw) == Ok(f) <==> Framable(f) && raw == Raw(kind, f)
  {
    if Parse(kind, raw) == Ok(f) {
      RawOfParse(kind, raw);
    }
    if Framable(f) && raw == Raw(kind, f) {
      ParseOfRaw(kind, kind, f);
    }
  }

  /** Which error refuses what is not a frame: the first of its checks that fails. */
  lemma ParseErrors(kind: WireKind, raw: Octets)
    ensures |raw| < 44 <==> Parse(kind, raw) == Err(TooShort)
    ensures |raw| >= 44 ==>
              var magic := raw[0] == 0x4F && raw[1] == 0x52 && raw[2] == 0x48 && raw[3] == 0x4C;
              var code: bv8 := if kind == Command then 1 else 2;
              var announced := raw[38] as int + 256 * (raw[39] as int);
              (Parse(kind, raw) == Err(Magic) <==> !magic) &&
              (Parse(kind, raw) == Err(FramingVersion) <==> magic && raw[4] != 2) &&
              (Parse(kind, raw) == Err(MessageKind) <==> magic && raw[4] == 2 && raw[5] != code) &&
              (Parse(kind, raw) == Err(PayloadLength) <==>
                 magic && raw[4] == 2 && raw[5] == code && |raw| != announced + 44)
  {
    if |raw| >= 44 {
      assert raw[..4] == [raw[0], raw[1], raw[2], raw[3]];
    }
  }

  /** No frame damaged within four consecutive bytes, checksum included, is accepted. */
  lemma DamageRejected(sent: WireKind, f: Frame, kind: WireKind,
                       before: Octets, u: Octets, v: Octets, after: Octets)
    requires Framable(f) && Raw(sent, f) == before + u + after
    requires |u| == |v| <= 4 && u != v
    ensures Parse(kind, before + v + after).Err?
  {
    BurstDetected(Protected(sent, f), before, u, v, after);
    ChecksumMustMatch(kind, before + v + after, |Protected(sent, f)|);
  }

  lemma ChecksumMustMatch(kind: WireKind, raw: Octets, length: nat)
    requires |raw| == length + CHECKSUM_BYTES && !Intact(raw, length)
    ensures Parse(kind, raw).Err?
  {
  }

  lemma ReceiveOfEncoded(kind: WireKind, sent: WireKind, f: Frame)
    requires Framable(f)
    ensures Receive(kind, Cobs.Encode(Raw(sent, f))) == if kind == sent then Ok(f) else Err(MessageKind)
  {
    Cobs.RoundTrip(Raw(sent, f));
    ParseOfRaw(kind, sent, f);
  }

  lemma EncodedFits(sent: WireKind, f: Frame)
    requires Framable(f) && |f.payload| <= MAX_POSTCARD_BYTES
    ensures 0 < |Cobs.Encode(Raw(sent, f))| <= MAX_COBS_FRAME_BYTES && Cobs.ZeroFree(Cobs.Encode(Raw(sent, f)))
  {
    Cobs.EncodeLength(Raw(sent, f));
    Cobs.EncodeZeroFree(Raw(sent, f));
  }

  // ------------------------------------------------------ the incremental decoder

  /** The decoder's control state and the body bytes collected so far. */
  datatype Decoder = Decoder(body: Octets, inside: bool, discard: bool)

  const IDLE := Decoder([], false, false)
  const ARMED := Decoder([], true, false)

  /** What one byte may cause: a callback or a counted overflow. */
  datatype Outcome = Callback(result: Result<Frame, DecodeError>) | Overflow

  ghost predicate Reachable(d: Decoder) {
    && |d.body| <= MAX_COBS_FRAME_BYTES
    && (!d.inside ==> d.body == [] && !d.discard)
    && (d.discard ==> d.body == [])
    && Cobs.ZeroFree(d.body)
  }

  function Next(d: Decoder, byte: bv8): Decoder {
    if byte == 0 then
      if d.discard then IDLE
      else if !d.inside then ARMED
      else if d.body == [] then d
      else IDLE
    else if d.discard || !d.inside then d
    else if |d.body| == MAX_COBS_FRAME_BYTES then Decoder([], true, true)
    else d.(body := d.body + [byte])
  }

  function Emitted(kind: WireKind, d: Decoder, byte: bv8): seq<Outcome> {
    if byte == 0 then
      if !d.discard && d.inside && d.body != [] then [Callback(Receive(kind, d.body))] else []
    else if !d.discard && d.inside && |d.body| == MAX_COBS_FRAME_BYTES then [Overflow]
    else []
  }

  function After(d: Decoder, bytes: Octets): Decoder
    decreases |bytes|
  {
    if bytes == [] then d else After(Next(d, bytes[0]), bytes[1..])
  }

  function Trace(kind: WireKind, d: Decoder, bytes: Octets): seq<Outcome>
    decreases |bytes|
  {
    if bytes == [] then [] else Emitted(kind, d, bytes[0]) + Trace(kind, Next(d, bytes[0]), bytes[1..])
  }

  /** Chunks do not matter: feeding a concatenation is feeding its parts. */
  lemma {:induction false} FeedConcat(kind: WireKind, d: Decoder, a: Octets, b: Octets)
    ensures After(d, a + b) == After(After(d, a), b)
    ensures Trace(kind, d, a + b) == Trace(kind, d, a) + Trace(kind, After(d, a), b)
    decreases |a|
  {
    if a == [] {
      assert a + b == b;
    } else {
      assert (a + b)[1..] == a[1..] + b;
      FeedConcat(kind, Next(d, a[0]), a[1..], b);
    }
  }

  lemma {:induction false} ReachableAfter(d: Decoder, bytes: Octets)
    requires Reachable(d)
    ensures Reachable(After(d, bytes))
    decreases |bytes|
  {
    if bytes != [] {
      ReachableAfter(Next(d, bytes[0]), bytes[1..]);
    }
  }

  lemma {:induction false} TextIgnored(kind: WireKind, d: Decoder, text: Octets)
    requires (d.discard || !d.inside) && Cobs.ZeroFree(text)
    ensures After(d, text) == d && Trace(kind, d, text) == []
    decreases |text|
  {
    if text != [] {
      TextIgnored(kind, d, text[1..]);
    }
  }

  lemma {:induction false} BodyCollected(kind: WireKind, d: Decoder, bytes: Octets)
    requires d.inside && !d.discard && Cobs.ZeroFree(bytes) && |d.body| + |bytes| <= MAX_COBS_FRAME_BYTES
    ensures After(d, bytes) == d.(body := d.body + bytes) && Trace(kind, d, bytes) == []
    decreases |bytes|
  {
    if bytes == [] {
      assert d.body + bytes == d.body;
    } else {
      var next := Next(d, bytes[0]);
      BodyCollected(kind, next, bytes[1..]);
      assert next.body + bytes[1..] == d.body + bytes;
    }
  }

  lemma FeedZero(kind: WireKind, d: Decoder)
    ensures After(d, [0]) == Next(d, 0) && Trace(kind, d, [0]) == Emitted(kind, d, 0)
  {
    assert [0 as bv8][1..] == [];
  }

  /** Two delimiters arm any decoder; only a body being collected causes a callback. */
  lemma TwoZeros(kind: WireKind, d: Decoder)
    requires Reachable(d)
    ensures After(d, [0, 0]) == ARMED
    ensures Trace(kind, d, [0, 0])
            == if d.inside && d.body != [] then [Callback(Receive(kind, d.body))] else []
  {
    assert [0, 0] == [0 as bv8] + [0];
    FeedConcat(kind, d, [0], [0]);
    FeedZero(kind, d);
    FeedZero(kind, Next(d, 0));
  }

  /** An armed decoder delivers exactly the frame that follows. */
  lemma ArmedDelivers(kind: WireKind, sent: WireKind, f: Frame)
    requires Framable(f) && |f.payload| <= MAX_POSTCARD_BYTES
    ensures var rest := Cobs.Encode(Raw(sent, f)) + [0];
            && After(ARMED, rest) == IDLE
            && Trace(kind, ARMED, rest) == [Callback(if kind == sent then Ok(f) else Err(MessageKind))]
  {
    var body := Cobs.Encode(Raw(sent, f));
    EncodedFits(sent, f);
    ReceiveOfEncoded(kind, sent, f);
    FeedConcat(kind, ARMED, body, [0]);
    BodyCollected(kind, ARMED, body);
    assert [] + body == body;
    FeedZero(kind, Decoder(body, true, false));
  }

  /** From any state reached by any bytes, one encoded frame ends with a callback carrying exactly
      that frame and an idle decoder; a body under way causes the only callback before it. */
  lemma Resynchronises(kind: WireKind, d: Decoder, f: Frame)
    requires Reachable(d) && Framable(f) && |f.payload| <= MAX_POSTCARD_BYTES
    ensures After(d, Wire(kind, f)) == IDLE
    ensures Trace(kind, d, Wire(kind, f))
            == (if d.inside && d.body != [] then [Callback(Receive(kind, d.body))] else []) + [Callback(Ok(f))]
  {
    var rest := Cobs.Encode(Raw(kind, f)) + [0];
    assert Wire(kind, f) == [0, 0] + rest;
    FeedConcat(kind, d, [0, 0], rest);
    TwoZeros(kind, d);
    ArmedDelivers(kind, kind, f);
  }

  /** Whatever bytes a new decoder was fed, the next encoded frame is delivered, after at most one other
      callback. */
  lemma ResynchronisesAfterAnything(kind: WireKind, garbage: Octets, f: Frame)
    requires Framable(f) && |f.payload| <= MAX_POSTCARD_BYTES
    ensures After(IDLE, garbage + Wire(kind, f)) == IDLE
    ensures var before := Trace(kind, IDLE, garbage);
            Trace(kind, IDLE, garbage + Wire(kind, f)) == before + [Callback(Ok(f))] ||
            exists body :: Trace(kind, IDLE, garbage + Wire(kind, f)) ==
              before + [Callback(Receive(kind, body)), Callback(Ok(f))]
  {
    var d := After(IDLE, garbage);
    ReachableAfter(IDLE, garbage);
    FeedConcat(kind, IDLE, garbage, Wire(kind, f));
    Resynchronises(kind, d, f);
    var before, tail := Trace(kind, IDLE, garbage), Trace(kind, d, Wire(kind, f));
    if d.inside && d.body != [] {
      assert tail == [Callback(Receive(kind, d.body)), Callback(Ok(f))];
    } else {
      assert tail == [Callback(Ok(f))];
    }
  }

  /** A body that fits is handed on whole at its delimiter. */
  lemma BodyDelivered(kind: WireKind, body: Octets)
    requires Cobs.ZeroFree(body) && 0 < |body| <= 607
    ensures After(ARMED, body + [0]) == IDLE && Trace(kind, ARMED, body + [0]) == [Callback(Receive(kind, body))]
  {
    FeedConcat(kind, ARMED, body, [0]);
    BodyCollected(kind, ARMED, body);
    assert [] + body == body;
    FeedZero(kind, Decoder(body, true, false));
  }

  /** A longer one is dropped up to its delimiter and counted once. */
  lemma OverlongDropped(kind: WireKind, body: Octets)
    requires Cobs.ZeroFree(body) && |body| > 607
    ensures After(ARMED, body + [0]) == IDLE && Trace(kind, ARMED, body + [0]) == [Overflow]
  {
    var fits, excess, rest := body[..607], body[607], body[608..];
    var full, dropping := Decoder(fits, true, false), Decoder([], true, true);
    assert body + [0] == fits + ([excess] + (rest + [0]));
    FeedConcat(kind, ARMED, fits, [excess] + (rest + [0]));
    BodyCollected(kind, ARMED, fits);
    assert [] + fits == fits;
    assert ([excess] + (rest + [0]))[1..] == rest + [0];
    FeedConcat(kind, dropping, rest, [0]);
    TextIgnored(kind, dropping, rest);
    FeedZero(kind, dropping);
  }

  // ------------------------------------------------------ mixed streams

  datatype Segment = Text(bytes: Octets) | Whole(frame: Frame)

  function Stream(kind: WireKind, segments: seq<Segment>): Octets
    requires forall i :: 0 <= i < |segments| && segments[i].Whole? ==> Framable(segments[i].frame)
  {
    if segments == [] then []
    else (if segments[0].Whole? then Wire(kind, segments[0].frame) else segments[0].bytes)
         + Stream(kind, segments[1..])
  }

  function Frames(segments: seq<Segment>): seq<Outcome> {
    if segments == [] then []
    else (if segments[0].Whole? then [Callback(Ok(segments[0].frame))] else []) + Frames(segments[1..])
  }

  /** An idle decoder takes any mix of whole frames and zero-free text to exactly those frames, in
      order, without an error or an overflow. */
  lemma {:induction false} MixedStream(kind: WireKind, segments: seq<Segment>)
    requires forall i :: 0 <= i < |segments| && segments[i].Whole? ==>
               Framable(segments[i].frame) && |segments[i].frame.payload| <= MAX_POSTCARD_BYTES
    requires forall i :: 0 <= i < |segments| && segments[i].Text? ==> Cobs.ZeroFree(segments[i].bytes)
    ensures After(IDLE, Stream(kind, segments)) == IDLE
    ensures Trace(kind, IDLE, Stream(kind, segments)) == Frames(segments)
    decreases |segments|
  {
    if segments != [] {
      MixedStream(kind, segments[1..]);
      SegmentFed(kind, segments[0], Stream(kind, segments[1..]));
    }
  }

  lemma {:induction false} SegmentFed(kind: WireKind, segment: Segment, rest: Octets)
    requires segment.Whole? ==> Framable(segment.frame) && |segment.frame.payload| <= MAX_POSTCARD_BYTES
    requires segment.Text? ==> Cobs.ZeroFree(segment.bytes)
    ensures var first := if segment.Whole? then Wire(kind, segment.frame) else segment.bytes;
            After(IDLE, first + rest) == After(IDLE, rest) &&
            Trace(kind, IDLE, first + rest) ==
              (if segment.Whole? then [Callback(Ok(segment.frame))] else []) + Trace(kind, IDLE, rest)
  {
    if segment.Whole? {
      Resynchronises(kind, IDLE, segment.frame);
      IdleAgain(kind, Wire(kind, segment.frame), [Callback(Ok(segment.frame))], rest);
    } else {
      TextIgnored(kind, IDLE, segment.bytes);
      IdleAgain(kind, segment.bytes, [], rest);
    }
  }

  lemma {:induction false} IdleAgain(kind: WireKind, first: Octets, outcomes: seq<Outcome>, rest: Octets)
    requires After(IDLE, first) == IDLE && Trace(kind, IDLE, first) == outcomes
    ensures After(IDLE, first + rest) == After(IDLE, rest)
    ensures Trace(kind, IDLE, first + rest) == outcomes + Trace(kind, IDLE, rest)
  {
    FeedConcat(kind, IDLE, first, rest);
  }
}
