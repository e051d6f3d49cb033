/** The buffers of `hil/protocol/src/framing.rs`: the encoder that fills them and the incremental
    decoder, each proved against the pure framing. */
module FrameCodec {
  import opened Bytes
  import opened Wrappers
  import opened Framing
  import Crc32c
  import Cobs

  const MAX_WIRE_FRAME_BYTES := 2 + MAX_COBS_FRAME_BYTES + 1

  /** Writes `bytes` at `at`, after the bytes already `done` and before those from `keep` on. */
  method Put(a: array<bv8>, at: nat, bytes: Octets, ghost done: Octets, ghost keep: nat)
    requires |done| == at && at + |bytes| <= keep <= a.Length && a[..at] == done
    modifies a
    ensures a[..at + |bytes|] == done + bytes && a[keep..] == old(a[keep..])
  {
    for i := 0 to |bytes|
      invariant a[..at + i] == done + bytes[..i] && a[keep..] == old(a[keep..])
    {
      a[at + i] := bytes[i];
      assert bytes[..i + 1] == bytes[..i] + [bytes[i]];
      assert a[..at + i + 1] == a[..at + i] + [bytes[i]];
    }
  }

  class FrameEncoder {
    const raw: array<bv8>
    const wire: array<bv8>

    ghost predicate Valid() {
      raw.Length == MAX_RAW_FRAME_BYTES && wire.Length == MAX_WIRE_FRAME_BYTES && raw != wire
    }

    constructor ()
      ensures Valid() && fresh(raw) && fresh(wire)
    {
      raw := new bv8[MAX_RAW_FRAME_BYTES](_ => 0);
      wire := new bv8[MAX_WIRE_FRAME_BYTES](_ => 0);
    }

    /** `FrameEncoder::frame`: fills in header and checksum around a payload in place, then stuffs the result. */
    method Complete(kind: WireKind, f: Frame) returns (sent: Octets)
      requires Valid() && |f.key| == 8 && |f.payload| <= MAX_POSTCARD_BYTES
      requires f.payload == raw[WIRE_HEADER_BYTES..WIRE_HEADER_BYTES + |f.payload|]
      modifies raw, wire
      ensures sent == Wire(kind, f)
    {
      ghost var kept := raw[WIRE_HEADER_BYTES..];
      assert kept[..|f.payload|] == f.payload;
      WriteHeader(kind, f);
      var length := WIRE_HEADER_BYTES + |f.payload|;
      assert raw[..length] == raw[..WIRE_HEADER_BYTES] + raw[WIRE_HEADER_BYTES..][..|f.payload|];
      Seal(length);
      EncodedFits(kind, f);
      sent := WriteWire(Cobs.Encode(raw[..length + CHECKSUM_BYTES]));
    }

    /** Appends the checksum of the first `length` bytes. */
    method Seal(length: nat)
      requires Valid() && length + CHECKSUM_BYTES <= raw.Length
      modifies raw
      ensures raw[..length + CHECKSUM_BYTES] == Sealed(old(raw[..length]))
    {
      var checksum := Crc32c.Checksum(raw[..length]);
      Put(raw, length, Crc32c.ToLe(checksum), raw[..length], length + CHECKSUM_BYTES);
    }

    method WriteHeader(kind: WireKind, f: Frame)
      requires Valid() && Framable(f) && |f.payload| <= MAX_POSTCARD_BYTES
      modifies raw
      ensures raw[..WIRE_HEADER_BYTES] == Header(kind, f)
      ensures raw[WIRE_HEADER_BYTES..] == old(raw[WIRE_HEADER_BYTES..])
    {
      Put(raw, 0, WIRE_MAGIC, [], WIRE_HEADER_BYTES);
      assert [] + WIRE_MAGIC == WIRE_MAGIC;
      Put(raw, 4, [FRAMING_VERSION, kind.Code()], WIRE_MAGIC, WIRE_HEADER_BYTES);
      ghost var done := Preamble(kind);
      Put(raw, 6, Le64(f.bootId), done, WIRE_HEADER_BYTES);
      done := done + Le64(f.bootId);
      Put(raw, 14, Crc32c.ToLe(f.messageSequence), done, WIRE_HEADER_BYTES);
      done := done + Crc32c.ToLe(f.messageSequence);
      Put(raw, 18, Le64(f.sessionId), done, WIRE_HEADER_BYTES);
      done := done + Le64(f.sessionId);
      Put(raw, 26, Crc32c.ToLe(f.requestId), done, WIRE_HEADER_BYTES);
      done := done + Crc32c.ToLe(f.requestId);
      Put(raw, 30, f.key, done, WIRE_HEADER_BYTES);
      done := done + f.key;
      Put(raw, 38, Le16(|f.payload|), done, WIRE_HEADER_BYTES);
    }

    /** Two delimiters, the encoded frame and its delimiter. */
    method WriteWire(encoded: Octets) returns (sent: Octets)
      requires Valid() && |encoded| <= MAX_COBS_FRAME_BYTES
      modifies wire
      ensures sent == [0, 0] + encoded + [0]
    {
      wire[0], wire[1] := 0, 0;
      assert wire[..2] == [0, 0];
      Put(wire, 2, encoded, [0, 0], 2 + |encoded|);
      wire[2 + |encoded|] := 0;
      sent := wire[..|encoded| + 3];
    }
  }

  datatype DecodeCounters = DecodeCounters(
    frames: nat, cobsErrors: nat, tooShort: nat, headerErrors: nat, framingVersionErrors: nat,
    messageKindErrors: nat, payloadLengthErrors: nat, checksumErrors: nat, deserializeErrors: nat,
    overflows: nat)

  function Saturating(n: nat): nat {
    if n >= 0xFFFF_FFFF then 0xFFFF_FFFF else n + 1
  }

  /** One counter per outcome. */
  function Count(c: DecodeCounters, o: Outcome): DecodeCounters {
    match o
    case Overflow => c.(overflows := Saturating(c.overflows))
    case Callback(Ok(_)) => c.(frames := Saturating(c.frames))
    case Callback(Err(Cobs)) => c.(cobsErrors := Saturating(c.cobsErrors))
    case Callback(Err(TooShort)) => c.(tooShort := Saturating(c.tooShort))
    case Callback(Err(Magic)) => c.(headerErrors := Saturating(c.headerErrors))
    case Callback(Err(FramingVersion)) => c.(framingVersionErrors := Saturating(c.framingVersionErrors))
    case Callback(Err(MessageKind)) => c.(messageKindErrors := Saturating(c.messageKindErrors))
    case Callback(Err(PayloadLength)) => c.(payloadLengthErrors := Saturating(c.payloadLengthErrors))
    case Callback(Err(Checksum)) => c.(checksumErrors := Saturating(c.checksumErrors))
  }

  function CountAll(c: DecodeCounters, trace: seq<Outcome>): DecodeCounters
    decreases |trace|
  {
    if trace == [] then c else CountAll(Count(c, trace[0]), trace[1..])
  }

  function Callbacks(trace: seq<Outcome>): seq<Result<Frame, DecodeError>> {
    if trace == [] then []
    else (if trace[0].Callback? then [trace[0].result] else []) + Callbacks(trace[1..])
  }

  lemma Associate<T>(a: seq<T>, b: seq<T>, c: seq<T>)
    ensures a + (b + c) == (a + b) + c
  {
  }

  lemma {:induction false} CallbacksConcat(a: seq<Outcome>, b: seq<Outcome>)
    ensures Callbacks(a + b) == Callbacks(a) + Callbacks(b)
    decreases |a|
  {
    if a == [] {
      assert a + b == b;
    } else {
      assert (a + b)[1..] == a[1..] + b;
      CallbacksConcat(a[1..], b);
      Associate(if a[0].Callback? then [a[0].result] else [], Callbacks(a[1..]), Callbacks(b));
    }
  }

  lemma {:induction false} CountConcat(a: seq<Outcome>, b: seq<Outcome>, c: DecodeCounters)
    ensures CountAll(c, a + b) == CountAll(CountAll(c, a), b)
    decreases |a|
  {
    if a == [] {
      assert a + b == b;
    } else {
      var next := Count(c, a[0]);
      assert (a + b)[1..] == a[1..] + b && (a + b)[0] == a[0];
      CountConcat(a[1..], b, next);
    }
  }

  function HowMany(trace: seq<Outcome>, which: Outcome -> bool): nat {
    if trace == [] then 0 else (if which(trace[0]) then 1 else 0) + HowMany(trace[1..], which)
  }

  predicate Delivered(o: Outcome) {
    o.Callback? && o.result.Ok?
  }

  predicate Overflowed(o: Outcome) {
    o.Overflow?
  }

  function Refused(e: DecodeError): Outcome -> bool {
    o => o == Callback(Err(e))
  }

  /** The counter for `n` outcomes after `start`. */
  function Capped(start: nat, n: nat): nat {
    if start + n < 0xFFFF_FFFF then start + n else 0xFFFF_FFFF
  }

  ghost predicate Within(c: DecodeCounters) {
    && c.frames < 0x1_0000_0000 && c.cobsErrors < 0x1_0000_0000 && c.tooShort < 0x1_0000_0000
    && c.headerErrors < 0x1_0000_0000 && c.framingVersionErrors < 0x1_0000_0000
    && c.messageKindErrors < 0x1_0000_0000 && c.payloadLengthErrors < 0x1_0000_0000
    && c.checksumErrors < 0x1_0000_0000 && c.overflows < 0x1_0000_0000
  }

  lemma {:induction false} HeaderCountersCount(c: DecodeCounters, trace: seq<Outcome>)
    requires Within(c)
    ensures var after := CountAll(c, trace);
            && after.cobsErrors == Capped(c.cobsErrors, HowMany(trace, Refused(DecodeError.Cobs)))
            && after.tooShort == Capped(c.tooShort, HowMany(trace, Refused(TooShort)))
            && after.headerErrors == Capped(c.headerErrors, HowMany(trace, Refused(Magic)))
            && after.framingVersionErrors == Capped(c.framingVersionErrors, HowMany(trace, Refused(FramingVersion)))
            && after.messageKindErrors == Capped(c.messageKindErrors, HowMany(trace, Refused(MessageKind)))
    decreases |trace|
  {
    if trace != [] {
      HeaderCountersCount(Count(c, trace[0]), trace[1..]);
    }
  }

  lemma {:induction false} FrameCountersCount(c: DecodeCounters, trace: seq<Outcome>)
    requires Within(c)
    ensures var after := CountAll(c, trace);
            && after.frames == Capped(c.frames, HowMany(trace, Delivered))
            && after.overflows == Capped(c.overflows, HowMany(trace, Overflowed))
            && after.payloadLengthErrors == Capped(c.payloadLengthErrors, HowMany(trace, Refused(PayloadLength)))
            && after.checksumErrors == Capped(c.checksumErrors, HowMany(trace, Refused(DecodeError.Checksum)))
            && after.deserializeErrors == c.deserializeErrors
    decreases |trace|
  {
    if trace != [] {
      FrameCountersCount(Count(c, trace[0]), trace[1..]);
    }
  }

  /** Every counter counts its own outcomes, up to the largest 32-bit number. */
  lemma CountersCount(c: DecodeCounters, trace: seq<Outcome>)
    requires Within(c)
    ensures CountAll(c, trace) ==
            DecodeCounters(Capped(c.frames, HowMany(trace, Delivered)),
                           Capped(c.cobsErrors, HowMany(trace, Refused(DecodeError.Cobs))),
                           Capped(c.tooShort, HowMany(trace, Refused(TooShort))),
                           Capped(c.headerErrors, HowMany(trace, Refused(Magic))),
                           Capped(c.framingVersionErrors, HowMany(trace, Refused(FramingVersion))),
                           Capped(c.messageKindErrors, HowMany(trace, Refused(MessageKind))),
                           Capped(c.payloadLengthErrors, HowMany(trace, Refused(PayloadLength))),
                           Capped(c.checksumErrors, HowMany(trace, Refused(DecodeError.Checksum))),
                           c.deserializeErrors,
                           Capped(c.overflows, HowMany(trace, Overflowed)))
  {
    HeaderCountersCount(c, trace);
    FrameCountersCount(c, trace);
  }

  class FrameDecoder {
    const encoded: array<bv8>
    var length: nat
    var insideFrame: bool
    var discardUntilDelimiter: bool
    var counters: DecodeCounters

    /** Bytes past the body being collected are zero: nothing of an earlier frame stays. */
    ghost predicate Valid()
      reads this, encoded
    {
      && encoded.Length == MAX_COBS_FRAME_BYTES && length <= encoded.Length
      && Reachable(State())
      && forall i :: length <= i < encoded.Length ==> encoded[i] == 0
    }

    ghost function State(): Decoder
      requires length <= encoded.Length
      reads this, encoded
    {
      Decoder(encoded[..length], insideFrame, discardUntilDelimiter)
    }

    constructor ()
      ensures Valid() && fresh(encoded) && State() == IDLE
    {
      encoded := new bv8[MAX_COBS_FRAME_BYTES](_ => 0);
      length, insideFrame, discardUntilDelimiter := 0, false, false;
      counters := DecodeCounters(0, 0, 0, 0, 0, 0, 0, 0, 0, 0);
    }

    /** Feeds a serial chunk; `calls` are the callbacks it made, in order. */
    method Feed(kind: WireKind, bytes: Octets) returns (calls: seq<Result<Frame, DecodeError>>)
      requires Valid()
      modifies this, encoded
      ensures Valid()
      ensures State() == After(old(State()), bytes)
      ensures calls == Callbacks(Trace(kind, old(State()), bytes))
      ensures counters == CountAll(old(counters), Trace(kind, old(State()), bytes))
    {
      calls := [];
      ghost var start, counted := State(), counters;
      for i := 0 to |bytes|
        invariant Valid()
        invariant State() == After(start, bytes[..i])
        invariant calls == Callbacks(Trace(kind, start, bytes[..i]))
        invariant counters == CountAll(counted, Trace(kind, start, bytes[..i]))
      {
        ghost var at := State();
        var more := FeedByte(kind, bytes[i]);
        calls := calls + more;
        assert bytes[..i + 1] == bytes[..i] + [bytes[i]];
        FeedConcat(kind, start, bytes[..i], [bytes[i]]);
        FeedOne(kind, at, bytes[i]);
        CallbacksConcat(Trace(kind, start, bytes[..i]), Emitted(kind, at, bytes[i]));
        CountConcat(Trace(kind, start, bytes[..i]), Emitted(kind, at, bytes[i]), counted);
      }
      assert bytes[..|bytes|] == bytes;
    }

    method FeedByte(kind: WireKind, byte: bv8) returns (calls: seq<Result<Frame, DecodeError>>)
      requires Valid()
      modifies this, encoded
      ensures Valid()
      ensures State() == Next(old(State()), byte)
      ensures calls == Callbacks(Emitted(kind, old(State()), byte))
      ensures counters == CountAll(old(counters), Emitted(kind, old(State()), byte))
    {
      calls := [];
      if byte == 0 {
        if discardUntilDelimiter {
          discardUntilDelimiter, insideFrame, length := false, false, 0;
        } else if !insideFrame {
          insideFrame, length := true, 0;
        } else if length != 0 {
          calls := Deliver(kind);
        }
      } else if !discardUntilDelimiter && insideFrame {
        if length == encoded.Length {
          counters := counters.(overflows := Saturating(counters.overflows));
          Zeroize();
          discardUntilDelimiter, length := true, 0;
        } else {
          encoded[length] := byte;
          length := length + 1;
        }
      }
    }

    method Zeroize()
      requires encoded.Length == MAX_COBS_FRAME_BYTES && length <= encoded.Length
      requires forall i :: length <= i < encoded.Length ==> encoded[i] == 0
      modifies encoded
      ensures forall i :: 0 <= i < encoded.Length ==> encoded[i] == 0
    {
      for i := 0 to length
        invariant forall j :: 0 <= j < i || length <= j < encoded.Length ==> encoded[j] == 0
      {
        encoded[i] := 0;
      }
    }

    /** The delimiter of a non-empty body: decode it, report it and erase it. */
    method Deliver(kind: WireKind) returns (calls: seq<Result<Frame, DecodeError>>)
      requires Valid() && insideFrame && !discardUntilDelimiter && length != 0
      modifies this, encoded
      ensures Valid() && State() == IDLE
      ensures calls == [Receive(kind, old(encoded[..length]))]
      ensures counters == Count(old(counters), Callback(Receive(kind, old(encoded[..length]))))
    {
      var result := Receive(kind, encoded[..length]);
      counters := Count(counters, Callback(result));
      calls := [result];
      Zeroize();
      insideFrame, length := false, 0;
    }
  }

  lemma FeedOne(kind: WireKind, d: Decoder, byte: bv8)
    ensures After(d, [byte]) == Next(d, byte) && Trace(kind, d, [byte]) == Emitted(kind, d, byte)
  {
    assert [byte][1..] == [];
  }
}
