/** Telemetry frames: the envelope, the frame layout and the serializer. */
module Telemetry {
  import opened Bits
  import opened Machine
  import CrcCcitt
  import opened CrcErrors

  const HEADER_LENGTH: nat := 6
  const MAX_PAYLOAD_LENGTH: nat := 63
  const MAX_MESSAGE_LENGTH: nat := 71

  const UNKNOWN_COMPONENT: byte := 0
  const GROUND_STATION: byte := 1
  const ONBOARD_COMPUTER: byte := 2

  const SYNC_1: byte := 0xCA
  const SYNC_2: byte := 0xFE

  datatype Envelope = Envelope(seqNo: byte, frameType: byte, source: byte, target: byte)

  /** The size of the frame that carries so many payload bytes, or zero if they are too many. */
  function MessageSize(payloadLength: byte): (size: byte) {
    if payloadLength <= MAX_PAYLOAD_LENGTH then payloadLength + 8 else 0
  }

  /** The envelope as the receiver sees it: defaults filled in, components cut to two bits. */
  function Normalised(e: Envelope): Envelope {
    e.(source := (if e.source == UNKNOWN_COMPONENT then ONBOARD_COMPUTER else e.source) % 4,
       target := (if e.target == UNKNOWN_COMPONENT then GROUND_STATION else e.target) % 4)
  }

  /** The header and the payload of a frame. */
  function Body(e: Envelope, payload: seq<byte>): (s: seq<byte>)
    requires |payload| <= MAX_PAYLOAD_LENGTH
    ensures |s| == HEADER_LENGTH + |payload|
  {
    var n := Normalised(e);
    [SYNC_1, SYNC_2, e.seqNo, e.frameType, n.source * 16 + n.target, |payload|] + payload
  }

  /** The whole frame. */
  function Frame(e: Envelope, payload: seq<byte>): (s: seq<byte>)
    requires |payload| <= MAX_PAYLOAD_LENGTH
    ensures |s| == |payload| + 8
  {
    Body(e, payload) + Checksum(CrcCcitt.Crc(0, Body(e, payload)))
  }

  /** What a well-shaped frame tells about itself. */
  datatype Delivery = Delivery(envelope: Envelope, payload: seq<byte>)

  predicate Shaped(f: seq<byte>) {
    |f| >= 8 && f[0] == SYNC_1 && f[1] == SYNC_2 && f[5] <= MAX_PAYLOAD_LENGTH && |f| == f[5] + 8
  }

  function DeliveryOf(f: seq<byte>): Delivery
    requires Shaped(f)
  {
    Delivery(Envelope(f[2], f[3], f[4] / 16, f[4] % 16), f[HEADER_LENGTH..HEADER_LENGTH + f[5]])
  }

  lemma FrameIsShaped(e: Envelope, payload: seq<byte>)
    requires |payload| <= MAX_PAYLOAD_LENGTH
    ensures var f := Frame(e, payload); Shaped(f) && DeliveryOf(f) == Delivery(Normalised(e), payload)
  {
    hide CrcCcitt.Crc, Checksum;
    var f := Frame(e, payload);
    assert f[..HEADER_LENGTH + |payload|] == Body(e, payload);
    assert forall i :: 0 <= i < HEADER_LENGTH ==> f[i] == Body(e, payload)[i];
    assert f[HEADER_LENGTH..HEADER_LENGTH + |payload|] == payload;
  }

  /** The layout of a frame, byte by byte; components take two bits each, the checksum low byte first. */
  lemma FrameLayout(e: Envelope, payload: seq<byte>)
    requires |payload| <= 63
    ensures var (f, n, c) := (Frame(e, payload), |payload|, Normalised(e));
            f[..6] == [0xCA, 0xFE, e.seqNo, e.frameType, c.source * 16 + c.target, n] && f[6..n + 6] == payload
    ensures var (f, n) := (Frame(e, payload), |payload|);
            IsChecksum(f[n + 6..], CrcCcitt.Crc(0, f[..n + 6]))
  {
    hide CrcCcitt.Crc, Checksum, Normalised, IsChecksum;
    var f, body, n := Frame(e, payload), Body(e, payload), |payload|;
    assert f[..n + 6] == body;
    assert body[..6] == f[..6] && body[6..] == payload && f[6..n + 6] == body[6..];
    assert f[n + 6..] == Checksum(CrcCcitt.Crc(0, body));
    ChecksumIs(CrcCcitt.Crc(0, body));
  }

  /** The low byte of the checksum, and then the high byte. */
  predicate IsChecksum(s: seq<byte>, crc: bv16) {
    |s| == 2 && s[0] == (crc & 0xFF) as nat && s[1] == (crc >> 8) as nat
  }

  lemma ChecksumIs(c: bv16)
    ensures IsChecksum(Checksum(c), c)
  {
  }

  /** An unknown source is the onboard computer, and an unknown target the ground station; others are kept. */
  lemma DefaultComponents(e: Envelope)
    requires e.source < 4 && e.target < 4
    ensures Normalised(e) ==
            Envelope(e.seqNo, e.frameType, if e.source == 0 then 2 else e.source, if e.target == 0 then 1 else e.target)
  {
  }

  lemma FrameHasNoResidue(e: Envelope, payload: seq<byte>)
    requires |payload| <= MAX_PAYLOAD_LENGTH
    ensures CrcCcitt.Crc(0, Frame(e, payload)) == 0
  {
    ResidueIsZero(Body(e, payload));
  }

  /** Packs two components of two bits each into one byte. */
  method PackComponents(source: byte, target: byte) returns (b: byte)
    ensures b == (source % 4) * 16 + target % 4
  {
    AsBits(source);
    AsBits(target);
    var x, y := source as bv8, target as bv8;
    LowTwoBits(x);
    LowTwoBits(y);
    PackedBits(x & 0x03, y & 0x03);
    b := (((x & 0x03) << 4) | (y & 0x03)) as nat;
  }

  lemma LowTwoBits(x: bv8)
    ensures (x & 0x03) as nat == x as nat % 4
  {
  }

  lemma PackedBits(x: bv8, y: bv8)
    requires x as nat < 4 && y as nat < 4
    ensures ((x << 4) | y) as nat == x as nat * 16 + y as nat
  {
  }

  /** Writes the header. */
  method WriteHeader(buffer: array<byte>, envelope: Envelope, payloadLength: byte)
    requires HEADER_LENGTH <= buffer.Length
    modifies buffer
    ensures buffer[HEADER_LENGTH..] == old(buffer[HEADER_LENGTH..])
    ensures HasHeader(buffer[..], envelope, payloadLength)
  {
    var source, target := envelope.source, envelope.target;
    if source == UNKNOWN_COMPONENT {
      source := ONBOARD_COMPUTER;
    }
    if target == UNKNOWN_COMPONENT {
      target := GROUND_STATION;
    }
    var components := PackComponents(source, target);
    buffer[0], buffer[1] := 0xCA, 0xFE;
    buffer[2], buffer[3] := envelope.seqNo, envelope.frameType;
    buffer[4], buffer[5] := components, payloadLength;
  }

  predicate HasHeader(s: seq<byte>, e: Envelope, payloadLength: nat)
    requires HEADER_LENGTH <= |s|
  {
    && s[0] == SYNC_1 && s[1] == SYNC_2 && s[2] == e.seqNo && s[3] == e.frameType
    && s[4] == Normalised(e).source * 16 + Normalised(e).target && s[5] == payloadLength
  }

  /** Copies the payload behind the header; without a payload pointer the bytes there are kept. */
  method WritePayload(buffer: array<byte>, payload: array?<byte>, payloadLength: byte)
    requires payloadLength <= MAX_PAYLOAD_LENGTH && HEADER_LENGTH + payloadLength <= buffer.Length
    requires payload != buffer && (payload != null ==> payloadLength <= payload.Length)
    modifies buffer
    ensures forall i :: 0 <= i < HEADER_LENGTH ==> buffer[i] == old(buffer[i])
    ensures buffer[HEADER_LENGTH + payloadLength..] == old(buffer[HEADER_LENGTH + payloadLength..])
    ensures buffer[HEADER_LENGTH..HEADER_LENGTH + payloadLength] == old(GivenPayload(buffer, payload, payloadLength))
  {
    if payload != null {
      forall i | 0 <= i < payloadLength {
        buffer[HEADER_LENGTH + i] := payload[i];
      }
    }
  }

  /** Writes the header and the payload; without a payload pointer the payload bytes are kept. */
  method WriteBody(buffer: array<byte>, envelope: Envelope, payload: array?<byte>, payloadLength: byte)
    requires payloadLength <= MAX_PAYLOAD_LENGTH && HEADER_LENGTH + payloadLength <= buffer.Length
    requires payload != buffer && (payload != null ==> payloadLength <= payload.Length)
    modifies buffer
    ensures buffer[HEADER_LENGTH + payloadLength..] == old(buffer[HEADER_LENGTH + payloadLength..])
    ensures buffer[..HEADER_LENGTH + payloadLength] ==
            Body(envelope, old(GivenPayload(buffer, payload, payloadLength)))
  {
    hide Body;
    ghost var p, before := GivenPayload(buffer, payload, payloadLength), buffer[HEADER_LENGTH..];
    WriteHeader(buffer, envelope, payloadLength);
    assert buffer[HEADER_LENGTH..HEADER_LENGTH + payloadLength] == buffer[HEADER_LENGTH..][..payloadLength];
    assert buffer[HEADER_LENGTH + payloadLength..] == buffer[HEADER_LENGTH..][payloadLength..];
    assert before[..payloadLength] == old(buffer[HEADER_LENGTH..HEADER_LENGTH + payloadLength]);
    assert before[payloadLength..] == old(buffer[HEADER_LENGTH + payloadLength..]);
    assert GivenPayload(buffer, payload, payloadLength) == p;
    WritePayload(buffer, payload, payloadLength);
    assert buffer[..][HEADER_LENGTH..HEADER_LENGTH + payloadLength] ==
           buffer[HEADER_LENGTH..HEADER_LENGTH + payloadLength];
    BodyIs(buffer[..], envelope, p);
    assert buffer[..HEADER_LENGTH + payloadLength] == buffer[..][..HEADER_LENGTH + payloadLength];
  }

  ghost function GivenPayload(buffer: array<byte>, payload: array?<byte>, payloadLength: byte): (p: seq<byte>)
    reads buffer, payload
    requires payloadLength <= MAX_PAYLOAD_LENGTH && HEADER_LENGTH + payloadLength <= buffer.Length
    requires payload != null ==> payloadLength <= payload.Length
    ensures |p| == payloadLength
  {
    if payload != null then payload[..payloadLength] else buffer[HEADER_LENGTH..HEADER_LENGTH + payloadLength]
  }

  /** Serializes a message into a buffer; zero, with nothing written, if it is too long or does not fit. */
  method Serialize(buffer: array<byte>, bufferLength: byte, envelope: Envelope, payload: array?<byte>,
                   payloadLength: byte) returns (size: byte)
    requires bufferLength <= buffer.Length && payload != buffer
    requires payload != null ==> payloadLength <= payload.Length
    modifies buffer
    ensures size == if MessageSize(payloadLength) > bufferLength then 0 else MessageSize(payloadLength)
    ensures size == 0 ==> buffer[..] == old(buffer[..])
    ensures size > 0 ==>
              buffer[..] ==
              Splice(old(buffer[..]), 0, Frame(envelope, old(GivenPayload(buffer, payload, payloadLength))))
  {
    hide Splice, CrcCcitt.Crc, Frame, Body, Checksum, GivenPayload;
    var spaceNeeded := MessageSize(payloadLength);
    if spaceNeeded == 0 || spaceNeeded > bufferLength {
      return 0;
    }
    ghost var p, before := GivenPayload(buffer, payload, payloadLength), buffer[..];
    var bodyLength := payloadLength + HEADER_LENGTH;
    WriteBody(buffer, envelope, payload, payloadLength);
    assert buffer[0..0 + bodyLength] == buffer[..bodyLength];
    assert buffer[bodyLength + 2..] == before[bodyLength..][2..];
    var crc := CrcCcitt.Update(0, buffer, 0, bodyLength);
    StoreChecksum(buffer, bodyLength, crc);
    FrameIs(buffer[..], envelope, p);
    assert buffer[..][0..0 + |p| + 8] == buffer[..][..|p| + 8];
    SpliceIs(before, 0, Frame(envelope, p), buffer[..]);
    return spaceNeeded;
  }

  method StoreChecksum(buffer: array<byte>, at: nat, crc: bv16)
    requires at + 2 <= buffer.Length
    modifies buffer
    ensures buffer[..at] == old(buffer[..at]) && buffer[at + 2..] == old(buffer[at + 2..])
    ensures buffer[at..at + 2] == Checksum(crc)
  {
    LowByteFits(crc);
    buffer[at] := (crc & 0xFF) as nat;
    buffer[at + 1] := (crc >> 8) as nat;
  }

  lemma LowByteFits(crc: bv16)
    ensures (crc & 0xFF) as nat < 0x100 && (crc >> 8) as nat < 0x100
  {
  }

  lemma BodyIs(s: seq<byte>, e: Envelope, p: seq<byte>)
    requires |p| <= MAX_PAYLOAD_LENGTH && HEADER_LENGTH + |p| <= |s|
    requires HasHeader(s, e, |p|)
    requires s[HEADER_LENGTH..HEADER_LENGTH + |p|] == p
    ensures s[..HEADER_LENGTH + |p|] == Body(e, p)
  {
    assert s[..HEADER_LENGTH + |p|] == s[..HEADER_LENGTH] + s[HEADER_LENGTH..HEADER_LENGTH + |p|];
  }

  lemma FrameIs(s: seq<byte>, e: Envelope, p: seq<byte>)
    requires |p| <= MAX_PAYLOAD_LENGTH && |p| + 8 <= |s|
    requires s[..HEADER_LENGTH + |p|] == Body(e, p)
    requires s[HEADER_LENGTH + |p|..|p| + 8] == Checksum(CrcCcitt.Crc(0, Body(e, p)))
    ensures s[..|p| + 8] == Frame(e, p)
  {
    hide CrcCcitt.Crc, Checksum, Body;
    assert s[..|p| + 8] == s[..HEADER_LENGTH + |p|] + s[HEADER_LENGTH + |p|..|p| + 8];
  }
}
