/** The byte-at-a-time telemetry parser, and what it makes of whole streams. */
module Parser {
  import opened Bits
  import opened Machine
  import CrcCcitt
  import opened CrcErrors
  import opened Telemetry

  // ----------------------------------------------------------------------------------------
  // The abstract parser
  // ----------------------------------------------------------------------------------------

  /** What matters of the past: nothing, half a sync word, or the frame collected so far. */
  datatype View =
    | Idle
    | Synced
    | Collecting(seen: seq<byte>)

  /** The collected bytes are the beginning of a frame of admissible length. */
  predicate Prefix(seen: seq<byte>) {
    && 2 <= |seen| && seen[0] == SYNC_1 && seen[1] == SYNC_2
    && (HEADER_LENGTH <= |seen| ==> seen[5] <= MAX_PAYLOAD_LENGTH && |seen| < seen[5] + 8)
  }

  predicate ValidView(v: View) {
    v.Collecting? ==> Prefix(v.seen)
  }

  /** Effect of one byte: the new view, and the frame that it completes. */
  function Step(v: View, ch: byte): (r: (View, Option<seq<byte>>))
    requires ValidView(v)
    ensures ValidView(r.0)
    ensures r.1.Some? ==> Shaped(r.1.value) && r.0.Idle?
  {
    match v
    case Idle => (if ch == SYNC_1 then Synced else Idle, None)
    case Synced => (if ch == SYNC_2 then Collecting([SYNC_1, SYNC_2]) else Idle, None)
    case Collecting(seen) =>
      var s := seen + [ch];
      if |s| < HEADER_LENGTH then (Collecting(s), None)
      else if |s| == HEADER_LENGTH && ch > MAX_PAYLOAD_LENGTH then (Idle, None)
      else if |s| < s[5] + 8 then (Collecting(s), None)
      else (Idle, if CrcCcitt.Crc(0, s) == 0 then Some(s) else None)
  }

  // ----------------------------------------------------------------------------------------
  // The parser
  // ----------------------------------------------------------------------------------------

  datatype ParserState =
    | WAITING_SYNC_BYTE_1
    | WAITING_SYNC_BYTE_2
    | READING_HEADER
    | READING_PAYLOAD
    | READING_CHECKSUM
    | DONE

  const NO_ENVELOPE := Envelope(0, 0, 0, 0)

  class Parser {
    var state: ParserState
    var envelope: Envelope
    const message: array<byte>
    var writePtr: nat
    var end: nat

    /** In every state both pointers stay inside the message buffer. */
    ghost predicate ValidIn(state: ParserState)
      reads this`writePtr, this`end, message
    {
      && message.Length == MAX_MESSAGE_LENGTH + 1
      && writePtr <= MAX_MESSAGE_LENGTH && end <= MAX_MESSAGE_LENGTH
      && match state
         case WAITING_SYNC_BYTE_1 => true
         case WAITING_SYNC_BYTE_2 => writePtr == 1 && message[0] == SYNC_1
         case READING_HEADER => 2 <= writePtr < end == HEADER_LENGTH && Started()
         case READING_PAYLOAD =>
           HEADER_LENGTH <= writePtr < end == HEADER_LENGTH + message[5] &&
           message[5] <= MAX_PAYLOAD_LENGTH && Started()
         case READING_CHECKSUM =>
           HEADER_LENGTH + message[5] <= writePtr < end == HEADER_LENGTH + message[5] + 2 &&
           message[5] <= MAX_PAYLOAD_LENGTH && Started()
         case DONE => false
    }

    ghost predicate Started()
      reads message
      requires message.Length >= 2
    {
      message[0] == SYNC_1 && message[1] == SYNC_2
    }

    ghost function ViewIn(state: ParserState): (v: View)
      reads this`writePtr, this`end, message
      requires ValidIn(state)
      ensures ValidView(v)
    {
      match state
      case WAITING_SYNC_BYTE_2 => Synced
      case READING_HEADER => Collecting(message[..writePtr])
      case READING_PAYLOAD => Collecting(message[..writePtr])
      case READING_CHECKSUM => Collecting(message[..writePtr])
      case _ => Idle
    }

    ghost predicate Valid()
      reads this, message
    {
      ValidIn(state)
    }

    ghost function Abstract(): (v: View)
      reads this, message
      requires Valid()
      ensures ValidView(v)
    {
      ViewIn(state)
    }

    constructor ()
      ensures Valid() && Abstract() == Idle && fresh(message)
    {
      message := new byte[MAX_MESSAGE_LENGTH + 1](_ => 0);
      state, end, writePtr, envelope := WAITING_SYNC_BYTE_1, 0, 0, NO_ENVELOPE;
    }

    method Reset()
      requires message.Length == MAX_MESSAGE_LENGTH + 1
      modifies this
      ensures Valid() && Abstract() == Idle && writePtr == end == 0 && state == WAITING_SYNC_BYTE_1
    {
      state, end, writePtr, envelope := WAITING_SYNC_BYTE_1, 0, 0, NO_ENVELOPE;
    }

    /** Stores a byte of the message. */
    method Store(ch: byte)
      requires message.Length == MAX_MESSAGE_LENGTH + 1 && writePtr <= MAX_MESSAGE_LENGTH
      modifies this`writePtr, message
      ensures writePtr == old(writePtr) + 1
      ensures message[..writePtr] == old(message[..writePtr]) + [ch]
    {
      message[writePtr] := ch;
      writePtr := writePtr + 1;
    }

    /** Processes a byte and says what the new state is. */
    method FeedState(ch: byte) returns (next: ParserState)
      requires Valid()
      modifies this, message
      ensures next == DONE <==> Step(old(Abstract()), ch).1.Some?
      ensures next == DONE ==>
                var f := Step(old(Abstract()), ch).1.value;
                end == |f| <= MAX_MESSAGE_LENGTH && message[..end] == f
      ensures next != DONE ==> ValidIn(next) && ViewIn(next) == Step(old(Abstract()), ch).0
    {
      hide CrcCcitt.Crc, Step;
      if state == WAITING_SYNC_BYTE_2 {
        next := FeedSync(ch);
      } else if state == READING_HEADER {
        next := FeedHeader(ch);
      } else if state == READING_PAYLOAD {
        next := FeedPayload(ch);
      } else if state == READING_CHECKSUM {
        next := FeedChecksum(ch);
      } else {
        next := FeedIdle(ch);
      }
    }

    // The cases of the switch.

    method FeedSync(ch: byte) returns (next: ParserState)
      requires Valid() && state == WAITING_SYNC_BYTE_2
      modifies this, message
      ensures next != DONE && ValidIn(next) && Step(old(Abstract()), ch) == (ViewIn(next), None)
    {
      if ch == SYNC_2 {
        Store(ch);
        end := writePtr + 4;
        assert message[..2] == [SYNC_1, SYNC_2];
        return READING_HEADER;
      } else {
        return WAITING_SYNC_BYTE_1;
      }
    }

    method FeedHeader(ch: byte) returns (next: ParserState)
      requires Valid() && state == READING_HEADER
      modifies this, message
      ensures next != DONE && ValidIn(next) && Step(old(Abstract()), ch) == (ViewIn(next), None)
    {
      hide CrcCcitt.Crc;
      ghost var s := message[..writePtr] + [ch];
      Store(ch);
      assert message[..writePtr] == s && forall i :: 0 <= i < |s| ==> message[i] == s[i];
      if writePtr == end {
        if ch <= MAX_PAYLOAD_LENGTH {
          if ch == 0 {
            end := end + 2;
            return READING_CHECKSUM;
          } else {
            end := end + ch;
            return READING_PAYLOAD;
          }
        } else {
          Reset();
          return WAITING_SYNC_BYTE_1;
        }
      } else {
        return READING_HEADER;
      }
    }

    method FeedPayload(ch: byte) returns (next: ParserState)
      requires Valid() && state == READING_PAYLOAD
      modifies this, message
      ensures next != DONE && ValidIn(next) && Step(old(Abstract()), ch) == (ViewIn(next), None)
    {
      hide CrcCcitt.Crc;
      ghost var s := message[..writePtr] + [ch];
      Store(ch);
      assert message[..writePtr] == s && forall i :: 0 <= i < |s| ==> message[i] == s[i];
      if writePtr == end {
        end := end + 2;
        return READING_CHECKSUM;
      } else {
        return READING_PAYLOAD;
      }
    }

    method FeedChecksum(ch: byte) returns (next: ParserState)
      requires Valid() && state == READING_CHECKSUM
      modifies this, message
      ensures next == DONE <==> Step(old(Abstract()), ch).1.Some?
      ensures next == DONE ==>
                var f := Step(old(Abstract()), ch).1.value;
                end == |f| <= MAX_MESSAGE_LENGTH && message[..end] == f
      ensures next != DONE ==> ValidIn(next) && ViewIn(next) == Step(old(Abstract()), ch).0
    {
      hide CrcCcitt.Crc;
      ghost var s := message[..writePtr] + [ch];
      Store(ch);
      assert message[..writePtr] == s && forall i :: 0 <= i < |s| ==> message[i] == s[i];
      if writePtr == end {
        assert message[0..0 + end] == s;
        var crc := CrcCcitt.Update(0, message, 0, end);
        if crc == 0 {
          return DONE;
        } else {
          Reset();
          return WAITING_SYNC_BYTE_1;
        }
      } else {
        return READING_CHECKSUM;
      }
    }

    method FeedIdle(ch: byte) returns (next: ParserState)
      requires Valid() && state == WAITING_SYNC_BYTE_1
      modifies this, message
      ensures next != DONE && ValidIn(next) && Step(old(Abstract()), ch) == (ViewIn(next), None)
    {
      if ch == SYNC_1 {
        Reset();
        Store(ch);
        assert message[0] == message[..1][0];
        return WAITING_SYNC_BYTE_2;
      } else {
        return WAITING_SYNC_BYTE_1;
      }
    }

    method UpdateEnvelope()
      requires message.Length == MAX_MESSAGE_LENGTH + 1
      modifies this`envelope
      ensures envelope == Envelope(message[2], message[3], message[4] / 16, message[4] % 16)
    {
      var high, low := SplitComponents(message[4]);
      envelope := Envelope(message[2], message[3], high, low);
    }

    /**
     * Feeds a byte: the payload length plus one if it completes a frame, zero otherwise. The
     * payload and the envelope of the completed frame can then be read off the parser.
     */
    method Feed(ch: byte) returns (r: byte)
      requires Valid()
      modifies this, message
      ensures Valid() && Abstract() == Step(old(Abstract()), ch).0
      ensures r == match Step(old(Abstract()), ch).1 case None => 0 case Some(f) => f[5] + 1
      ensures r > 0 ==>
                DeliveryOf(Step(old(Abstract()), ch).1.value) ==
                Delivery(envelope, message[HEADER_LENGTH..HEADER_LENGTH + (r - 1)])
    {
      hide CrcCcitt.Crc;
      var next := FeedState(ch);
      state := next;
      if state == DONE {
        ghost var f := message[..end];
        var length := end - HEADER_LENGTH - 1;
        Reset();
        UpdateEnvelope();
        assert message[..][..|f|] == f;
        SliceOfSlice(message[..], 0, |f|, HEADER_LENGTH, HEADER_LENGTH + f[5]);
        return length;
      } else {
        return 0;
      }
    }
  }

  /** The two components packed into one byte. */
  method SplitComponents(b: byte) returns (high: byte, low: byte)
    ensures high == b / 16 && low == b % 16
  {
    AsBits(b);
    NibbleBits(b as bv8);
    high, low := ((b as bv8) >> 4) as nat, ((b as bv8) & 0x0F) as nat;
  }

  lemma NibbleBits(x: bv8)
    ensures (x >> 4) as nat == x as nat / 16 && (x & 0x0F) as nat == x as nat % 16
  {
  }

  // ----------------------------------------------------------------------------------------
  // Streams
  // ----------------------------------------------------------------------------------------

  /** The view after a stream, and the frames completed meanwhile. */
  function Run(v: View, s: seq<byte>): (r: (View, seq<seq<byte>>))
    requires ValidView(v)
    ensures ValidView(r.0)
    ensures forall i :: 0 <= i < |r.1| ==> Shaped(r.1[i])
    decreases s
  {
    if s == [] then (v, [])
    else
      var (v1, f) := Step(v, s[0]);
      var (v2, fs) := Run(v1, s[1..]);
      (v2, if f.Some? then [f.value] + fs else fs)
  }

  lemma {:induction false} RunConcat(v: View, a: seq<byte>, b: seq<byte>)
    requires ValidView(v)
    ensures Run(v, a + b) == (Run(Run(v, a).0, b).0, Run(v, a).1 + Run(Run(v, a).0, b).1)
    decreases a
  {
    hide Step;
    if a == [] {
      assert a + b == b;
      assert [] + Run(v, b).1 == Run(v, b).1;
    } else {
      assert (a + b)[1..] == a[1..] + b;
      var (v1, f) := Step(v, a[0]);
      RunConcat(v1, a[1..], b);
      var (x, y) := (Run(v1, a[1..]).1, Run(Run(v, a).0, b).1);
      if f.Some? {
        assert ([f.value] + x) + y == [f.value] + (x + y);
      }
    }
  }

  predicate Noise(s: seq<byte>) {
    forall i :: 0 <= i < |s| ==> s[i] != SYNC_1
  }

  lemma {:induction false} NoiseIsIgnored(s: seq<byte>)
    requires Noise(s)
    ensures Run(Idle, s) == (Idle, [])
    decreases s
  {
    if s != [] {
      NoiseIsIgnored(s[1..]);
    }
  }

  lemma RunNothing(v: View)
    requires ValidView(v)
    ensures Run(v, []) == (v, [])
  {
  }

  lemma RunOne(v: View, ch: byte)
    requires ValidView(v)
    ensures var (v', f) := Step(v, ch); Run(v, [ch]) == (v', if f.Some? then [f.value] else [])
  {
    hide Step;
    var (v', f) := Step(v, ch);
    assert [ch][1..] == [];
    assert Run(v', []) == (v', []);
    assert f.Some? ==> [f.value] + [] == [f.value];
  }

  /** The last byte of a stream acts on what the bytes before it left. */
  lemma RunSnoc(v: View, s: seq<byte>)
    requires ValidView(v) && s != []
    ensures var (before, (v', f)) := (Run(v, s[..|s| - 1]), Step(Run(v, s[..|s| - 1]).0, s[|s| - 1]));
            Run(v, s) == (v', before.1 + if f.Some? then [f.value] else [])
  {
    hide Run, Step, Shaped, Prefix;
    var front, last := s[..|s| - 1], s[|s| - 1];
    FrontAndLast(s);
    RunConcat(v, front, [last]);
    RunOne(Run(v, front).0, last);
    assert Run(v, s) == Run(v, front + [last]);
  }

  /** Until it is complete, a frame is just collected. */
  lemma {:induction false} CollectsPrefix(f: seq<byte>, n: nat)
    requires Shaped(f) && 2 <= n < |f|
    ensures Run(Idle, f[..n]) == (Collecting(f[..n]), []) && Prefix(f[..n])
  {
    hide Run, Step;
    RunSnoc(Idle, f[..n]);
    assert f[..n][..n - 1] == f[..n - 1];
    if n == 2 {
      RunSnoc(Idle, f[..1]);
      assert f[..1][..0] == [];
      RunNothing(Idle);
      SyncWordStarts(f);
    } else {
      CollectsPrefix(f, n - 1);
      CollectStep(f, n);
    }
    var none: seq<seq<byte>> := [];
    assert none + none == none;
  }

  lemma SyncWordStarts(f: seq<byte>)
    requires Shaped(f)
    ensures Step(Idle, f[0]) == (Synced, None) && Step(Synced, f[1]) == (Collecting(f[..2]), None)
  {
    assert f[..2] == [SYNC_1, SYNC_2];
  }

  lemma CollectStep(f: seq<byte>, n: nat)
    requires Shaped(f) && 3 <= n < |f| && Prefix(f[..n - 1])
    ensures Step(Collecting(f[..n - 1]), f[n - 1]) == (Collecting(f[..n]), None)
  {
    hide CrcCcitt.Crc;
    assert f[..n - 1] + [f[n - 1]] == f[..n];
  }

  lemma CompletingStep(f: seq<byte>)
    requires Shaped(f) && Prefix(f[..|f| - 1])
    ensures Step(Collecting(f[..|f| - 1]), f[|f| - 1]) == (Idle, if CrcCcitt.Crc(0, f) == 0 then Some(f) else None)
  {
    hide CrcCcitt.Crc, Step, Prefix;
    FrontAndLast(f);
    LastByte(f[..|f| - 1], f[|f| - 1]);
  }

  lemma LastByte(seen: seq<byte>, ch: byte)
    requires Prefix(seen) && |seen| >= HEADER_LENGTH && |seen| + 1 == seen[5] + 8
    ensures var s := seen + [ch];
            Step(Collecting(seen), ch) == (Idle, if CrcCcitt.Crc(0, s) == 0 then Some(s) else None)
  {
    hide CrcCcitt.Crc;
  }

  /** Anything that has the shape of a frame is delivered if and only if its checksum is right. */
  lemma RunShaped(f: seq<byte>)
    requires Shaped(f)
    ensures Run(Idle, f) == (Idle, if CrcCcitt.Crc(0, f) == 0 then [f] else [])
  {
    hide Run, Step, CrcCcitt.Crc;
    CollectsPrefix(f, |f| - 1);
    RunSnoc(Idle, f);
    CompletingStep(f);
    assert forall fs: seq<seq<byte>> :: [] + fs == fs;
  }

  // ----------------------------------------------------------------------------------------
  // Delivery
  // ----------------------------------------------------------------------------------------

  /** A frame with the noise in front of it. */
  datatype Piece = Piece(noise: seq<byte>, envelope: Envelope, payload: seq<byte>)
  {
    predicate Valid() {
      Noise(noise) && |payload| <= MAX_PAYLOAD_LENGTH
    }
  }

  function Stream(ps: seq<Piece>, tail: seq<byte>): seq<byte>
    requires forall i :: 0 <= i < |ps| ==> ps[i].Valid()
  {
    if ps == [] then tail
    else
      var p := ps[0];
      assert p.Valid();
      p.noise + (Frame(p.envelope, p.payload) + Stream(ps[1..], tail))
  }

  function Deliveries(fs: seq<seq<byte>>): (ds: seq<Delivery>)
    requires forall i :: 0 <= i < |fs| ==> Shaped(fs[i])
    ensures |ds| == |fs|
  {
    seq(|fs|, i requires 0 <= i < |fs| => DeliveryOf(fs[i]))
  }

  function Expected(ps: seq<Piece>): seq<Delivery> {
    seq(|ps|, i requires 0 <= i < |ps| => Delivery(Normalised(ps[i].envelope), ps[i].payload))
  }

  /** An idle parser delivers one frame after noise, and is idle again. */
  lemma RunPiece(p: Piece)
    requires p.Valid()
    ensures Run(Idle, p.noise + Frame(p.envelope, p.payload)) == (Idle, [Frame(p.envelope, p.payload)])
    ensures Shaped(Frame(p.envelope, p.payload))
  {
    hide Frame, CrcCcitt.Crc;
    var f := Frame(p.envelope, p.payload);
    NoiseIsIgnored(p.noise);
    RunConcat(Idle, p.noise, f);
    FrameIsShaped(p.envelope, p.payload);
    FrameHasNoResidue(p.envelope, p.payload);
    RunShaped(f);
    assert [] + [f] == [f];
  }

  /** Any list of frames, separated by noise, is delivered exactly and in order. */
  lemma {:induction false} StreamIsDelivered(ps: seq<Piece>, tail: seq<byte>)
    requires (forall i :: 0 <= i < |ps| ==> ps[i].Valid()) && Noise(tail)
    ensures var (v, fs) := Run(Idle, Stream(ps, tail)); v == Idle && Deliveries(fs) == Expected(ps)
    decreases |ps|
  {
    hide Frame, CrcCcitt.Crc, Run, DeliveryOf;
    if ps == [] {
      NoiseIsIgnored(tail);
    } else {
      var p, f, rest := ps[0], Frame(ps[0].envelope, ps[0].payload), Stream(ps[1..], tail);
      RunPiece(p);
      RunConcat(Idle, p.noise + f, rest);
      assert p.noise + (f + rest) == (p.noise + f) + rest;
      StreamIsDelivered(ps[1..], tail);
      FrameIsShaped(p.envelope, p.payload);
      var fs := Run(Idle, rest).1;
      assert Deliveries([f] + fs) == [DeliveryOf(f)] + Deliveries(fs);
      assert Expected(ps) == [Delivery(Normalised(p.envelope), p.payload)] + Expected(ps[1..]);
    }
  }

  // ----------------------------------------------------------------------------------------
  // Corruption
  // ----------------------------------------------------------------------------------------

  /**
   * Damage confined to sixteen consecutive bits that leaves the sync word and the length alone is
   * never delivered as a frame, and the parser is idle again afterwards, so it takes the next one.
   */
  lemma CorruptedFrameIsDropped(e: Envelope, payload: seq<byte>, damaged: seq<byte>, i: nat)
    requires |payload| <= MAX_PAYLOAD_LENGTH && |damaged| == |payload| + 8
    requires var f := Frame(e, payload); damaged[0] == f[0] && damaged[1] == f[1] && damaged[5] == f[5]
    requires Burst(BitsOf(Frame(e, payload)), BitsOf(damaged), i)
    ensures Run(Idle, damaged) == (Idle, [])
  {
    hide CrcCcitt.Crc, Frame, BitsOf, Burst;
    var f := Frame(e, payload);
    FrameIsShaped(e, payload);
    FrameHasNoResidue(e, payload);
    BurstIsDetected(0, f, damaged, i);
    RunShaped(damaged);
  }

  /** In particular one damaged byte, or two adjacent ones; the next frame still gets through. */
  lemma DamagedBytesAreDropped(e: Envelope, payload: seq<byte>, damaged: seq<byte>, j: nat, next: Piece)
    requires |payload| <= MAX_PAYLOAD_LENGTH && |damaged| == |payload| + 8
    requires var f := Frame(e, payload);
             damaged != f && damaged[0] == f[0] && damaged[1] == f[1] && damaged[5] == f[5] &&
             forall k :: 0 <= k < |f| && k != j && k != j + 1 ==> f[k] == damaged[k]
    requires next.Valid()
    ensures Run(Idle, damaged + (next.noise + Frame(next.envelope, next.payload))) ==
            (Idle, [Frame(next.envelope, next.payload)])
  {
    hide CrcCcitt.Crc, Frame, BitsOf, Burst;
    var f := Frame(e, payload);
    AdjacentBytesAreBurst(f, damaged, j);
    CorruptedFrameIsDropped(e, payload, damaged, 8 * j);
    RunPiece(next);
    RunConcat(Idle, damaged, next.noise + Frame(next.envelope, next.payload));
    assert forall fs: seq<seq<byte>> :: [] + fs == fs;
  }

  /** A header that announces too much is dropped with its last byte. */
  lemma OversizedIsDropped(header: seq<byte>)
    requires |header| == 6 && header[0] == 0xCA && header[1] == 0xFE && header[5] > 63
    ensures Run(Idle, header) == (Idle, [])
  {
    hide Run, CrcCcitt.Crc;
    RunHeader(header, 5);
    assert header[..6] == header && header[..6][..5] == header[..5];
    RunSnoc(Idle, header);
    assert header[..5] + [header[5]] == header;
    var none: seq<seq<byte>> := [];
    assert none + none == none;
  }

  lemma {:induction false} RunHeader(header: seq<byte>, n: nat)
    requires |header| == 6 && header[0] == 0xCA && header[1] == 0xFE && 2 <= n <= 5
    ensures Run(Idle, header[..n]) == (Collecting(header[..n]), [])
  {
    hide Run, Step;
    RunSnoc(Idle, header[..n]);
    assert header[..n][..n - 1] == header[..n - 1] && header[..n][n - 1] == header[n - 1];
    var none: seq<seq<byte>> := [];
    assert none + none == none;
    if n == 2 {
      RunNothing(Idle);
      RunSnoc(Idle, header[..1]);
      assert header[..1][..0] == [];
      HeaderStarts(header);
    } else {
      RunHeader(header, n - 1);
      HeaderGrows(header, n);
    }
  }

  lemma HeaderStarts(header: seq<byte>)
    requires |header| == 6 && header[0] == 0xCA && header[1] == 0xFE
    ensures Step(Idle, header[0]) == (Synced, None) && Step(Synced, header[1]) == (Collecting(header[..2]), None)
  {
    assert header[..2] == [SYNC_1, SYNC_2];
  }

  lemma HeaderGrows(header: seq<byte>, n: nat)
    requires |header| == 6 && header[0] == 0xCA && header[1] == 0xFE && 3 <= n <= 5
    ensures Step(Collecting(header[..n - 1]), header[n - 1]) == (Collecting(header[..n]), None)
  {
    assert header[..n - 1] + [header[n - 1]] == header[..n];
  }

  // ----------------------------------------------------------------------------------------
  // Noise that contains the first sync byte
  // ----------------------------------------------------------------------------------------

  /** No sync word occurs in the noise. */
  predicate SyncFree(s: seq<byte>) {
    forall i :: 0 <= i < |s| - 1 ==> !(s[i] == SYNC_1 && s[i + 1] == SYNC_2)
  }

  /** Length of the run of first sync bytes at the end. */
  function TrailingRun(s: seq<byte>): nat {
    if s == [] || s[|s| - 1] != SYNC_1 then 0 else 1 + TrailingRun(s[..|s| - 1])
  }

  function ViewAfterRun(n: nat): View {
    if n % 2 == 0 then Idle else Synced
  }

  lemma {:induction false} AfterSyncFree(s: seq<byte>)
    requires SyncFree(s)
    ensures Run(Idle, s) == (ViewAfterRun(TrailingRun(s)), [])
  {
    hide Run, Step, ViewAfterRun;
    if s == [] {
      RunNothing(Idle);
      assert ViewAfterRun(0) == Idle by { EvenRun(0); }
    } else {
      AfterSyncFree(s[..|s| - 1]);
      RunSnoc(Idle, s);
      SyncFreeStep(s);
      var none: seq<seq<byte>> := [];
      assert none + none == none;
    }
  }

  lemma EvenRun(n: nat)
    ensures n == 0 ==> ViewAfterRun(n) == Idle
    ensures ViewAfterRun(n + 1) == if ViewAfterRun(n) == Idle then Synced else Idle
    ensures ViewAfterRun(n) == Idle || ViewAfterRun(n) == Synced
  {
  }

  /** Outside a frame, only an idle parser pays attention to a first sync byte. */
  lemma OutsideStep(v: View, ch: byte)
    requires v == Idle || (v == Synced && ch != SYNC_2)
    ensures Step(v, ch) == (if v == Idle && ch == SYNC_1 then Synced else Idle, None)
  {
  }

  lemma SyncFreeStep(s: seq<byte>)
    requires s != [] && SyncFree(s)
    ensures Step(ViewAfterRun(TrailingRun(s[..|s| - 1])), s[|s| - 1]) == (ViewAfterRun(TrailingRun(s)), None)
  {
    hide ViewAfterRun, Step;
    var front, last := s[..|s| - 1], s[|s| - 1];
    EvenRun(TrailingRun(front));
    EvenRun(0);
    if TrailingRun(front) > 0 {
      assert front[|front| - 1] == s[|s| - 2];
      assert last != SYNC_2;
    }
    OutsideStep(ViewAfterRun(TrailingRun(front)), last);
  }

  /** What is being collected was fed. */
  lemma {:induction false} CollectedWasFed(s: seq<byte>)
    ensures Run(Idle, s).0.Collecting? ==> |Run(Idle, s).0.seen| <= |s|
    ensures Run(Idle, s).0.Synced? ==> 1 <= |s|
  {
    hide Run;
    if s == [] {
      RunNothing(Idle);
    } else {
      CollectedWasFed(s[..|s| - 1]);
      RunSnoc(Idle, s);
    }
  }

  /**
   * After noise without a sync word, a frame is completed by its last byte exactly when the noise
   * ends in an even number of first sync bytes: two of them in a row cancel out.
   */
  lemma DeliveredIffEvenRun(noise: seq<byte>, e: Envelope, payload: seq<byte>)
    requires SyncFree(noise) && |payload| <= MAX_PAYLOAD_LENGTH
    ensures var f := Frame(e, payload); var n := |f| - 1;
            Step(Run(Idle, noise + f[..n]).0, f[n]).1 == Some(f) <==> TrailingRun(noise) % 2 == 0
  {
    hide Run, Step, CrcCcitt.Crc, Frame;
    var f := Frame(e, payload);
    var n := |f| - 1;
    AfterSyncFree(noise);
    RunConcat(Idle, noise, f[..n]);
    FrameIsShaped(e, payload);
    FrameHasNoResidue(e, payload);
    if TrailingRun(noise) % 2 == 0 {
      CollectsPrefix(f, n);
      CompletingStep(f);
    } else {
      SyncWordIsSwallowed(f[..n]);
      CollectedWasFed(f[..n][2..]);
      DeliveredWasCollected(Run(Idle, f[..n][2..]).0, f[n]);
    }
  }

  lemma DeliveredWasCollected(v: View, ch: byte)
    requires ValidView(v)
    ensures Step(v, ch).1.Some? ==> v.Collecting? && |Step(v, ch).1.value| == |v.seen| + 1
  {
    hide CrcCcitt.Crc;
  }

  lemma SyncWordIsSwallowed(s: seq<byte>)
    requires |s| >= 2 && s[0] == SYNC_1 && s[1] == SYNC_2
    ensures Run(Synced, s).0 == Run(Idle, s[2..]).0
  {
    hide CrcCcitt.Crc;
    assert s[1..][1..] == s[2..];
  }

  /** The checksum of a frame without a payload, byte by byte. */
  lemma ExampleChecksum()
    ensures CrcCcitt.Crc(0, [0xCA, 0xFE, 0x01, 0x01, 0x21, 0x00]) == 0xACEF
  {
    hide CrcCcitt.Crc;
    NothingToDivide();
    CrcOfNext([], 0, 0xCA, 0xCA, 0x6956);
    var one := [] + [0xCA];
    CrcOfNext(one, 0x6956, 0xFE, 0xFE, 0x292B);
    var two := one + [0xFE];
    CrcOfNext(two, 0x292B, 0x01, 0x01, 0x8E71);
    var three := two + [0x01];
    CrcOfNext(three, 0x8E71, 0x01, 0x01, 0x7309);
    var four := three + [0x01];
    CrcOfNext(four, 0x7309, 0x21, 0x21, 0xAD39);
    var five := four + [0x21];
    CrcOfNext(five, 0xAD39, 0x00, 0x00, 0xACEF);
    assert five + [0x00] == [0xCA, 0xFE, 0x01, 0x01, 0x21, 0x00];
  }

  lemma ExampleFrame()
    ensures Frame(Envelope(1, 1, 2, 1), []) == [0xCA, 0xFE, 0x01, 0x01, 0x21, 0x00, 0xEF, 0xAC]
  {
    hide CrcCcitt.Crc, Checksum, Body;
    ExampleBody();
    ExampleChecksum();
    ChecksumBytes();
    ExampleJoined();
  }

  lemma ExampleBody()
    ensures Body(Envelope(1, 1, 2, 1), []) == [0xCA, 0xFE, 0x01, 0x01, 0x21, 0x00]
  {
    var e := Envelope(1, 1, 2, 1);
    ExampleEnvelope();
    var head: seq<byte> := [SYNC_1, SYNC_2, e.seqNo, e.frameType, e.source * 16 + e.target, 0];
    assert Body(e, []) == head + [];
    hide Body, Normalised;
    AddNothing(head);
  }

  lemma ExampleEnvelope()
    ensures Normalised(Envelope(1, 1, 2, 1)) == Envelope(1, 1, 2, 1)
  {
  }

  lemma ExampleJoined()
    ensures [0xCA, 0xFE, 0x01, 0x01, 0x21, 0x00] + [0xEF, 0xAC] == [0xCA, 0xFE, 0x01, 0x01, 0x21, 0x00, 0xEF, 0xAC]
  {
  }

  lemma ChecksumBytes()
    ensures Checksum(0xACEF) == [0xEF, 0xAC]
  {
  }

  lemma NothingToDivide()
    ensures CrcCcitt.Crc(0, []) == 0
  {
  }

  /** An example: with one such byte in front of it, this frame is lost. */
  lemma SyncByteHidesFrame()
    ensures var f := Frame(Envelope(1, 1, 2, 1), []);
            f == [0xCA, 0xFE, 0x01, 0x01, 0x21, 0x00, 0xEF, 0xAC] && Run(Idle, [0xCA] + f) == (Idle, [])
  {
    hide Run, Step, CrcCcitt.Crc;
    var f := Frame(Envelope(1, 1, 2, 1), []);
    ExampleFrame();
    assert [0xCA] + f == [0xCA, 0xCA] + f[1..];
    TwoSyncBytes();
    NoiseIsIgnored(f[1..]);
    RunConcat(Idle, [0xCA, 0xCA], f[1..]);
    var none: seq<seq<byte>> := [];
    assert none + none == none;
  }

  lemma TwoSyncBytes()
    ensures Run(Idle, [0xCA, 0xCA]) == (Idle, [])
  {
    hide Run, Step;
    assert [0xCA, 0xCA][..1] == [0xCA] && [0xCA][..0] == [];
    assert TrailingRun([0xCA, 0xCA]) == 2;
    AfterSyncFree([0xCA, 0xCA]);
  }

  // ----------------------------------------------------------------------------------------
  // Whatever was received before
  // ----------------------------------------------------------------------------------------

  /** How many bytes of a possible frame have been seen. */
  function Seen(v: View): nat {
    match v
    case Idle => 0
    case Synced => 1
    case Collecting(seen) => |seen|
  }

  lemma StepSeen(v: View, ch: byte)
    requires ValidView(v)
    ensures Seen(Step(v, ch).0) == Seen(v) + 1 || Step(v, ch).0 == Idle
    ensures v == Idle && ch != SYNC_1 ==> Step(v, ch).0 == Idle
    ensures Seen(v) <= MAX_MESSAGE_LENGTH - 1 && (v != Idle ==> Seen(v) > 0)
  {
    hide CrcCcitt.Crc;
  }

  /** A collection that began before some bytes has them all, and one that began within them has fewer. */
  lemma {:induction false} SeenAfter(v: View, s: seq<byte>)
    requires ValidView(v)
    ensures Seen(Run(v, s).0) == Seen(v) + |s| || Seen(Run(v, s).0) < |s| || Run(v, s).0 == Idle
  {
    hide Run, Step, Seen;
    if s == [] {
      RunNothing(v);
    } else {
      SeenAfter(v, s[..|s| - 1]);
      RunSnoc(v, s);
      StepSeen(Run(v, s[..|s| - 1]).0, s[|s| - 1]);
      StepSeen(v, s[0]);
      NothingSeen();
      if |s| == 1 {
        assert s[..0] == [];
        RunNothing(v);
      }
    }
  }

  lemma NothingSeen()
    ensures Seen(Idle) == 0
  {
  }

  /**
   * After any bytes at all, a frame is completed by its last byte if and only if the parser was idle
   * when it began.
   */
  lemma DeliveredIffIdle(before: seq<byte>, e: Envelope, payload: seq<byte>)
    requires |payload| <= MAX_PAYLOAD_LENGTH
    ensures var f := Frame(e, payload); var n := |f| - 1;
            Step(Run(Idle, before + f[..n]).0, f[n]).1 == Some(f) <==> Run(Idle, before).0 == Idle
  {
    hide Run, Step, CrcCcitt.Crc, Frame, Seen;
    var f := Frame(e, payload);
    var n := |f| - 1;
    RunConcat(Idle, before, f[..n]);
    FrameIsShaped(e, payload);
    FrameHasNoResidue(e, payload);
    var v := Run(Idle, before).0;
    if v == Idle {
      CollectsPrefix(f, n);
      CompletingStep(f);
    } else {
      SeenAfter(v, f[..n]);
      StepSeen(v, f[0]);
      DeliveredWasCollected(Run(v, f[..n]).0, f[n]);
      SeenIs(Run(v, f[..n]).0);
    }
  }

  lemma SeenIs(v: View)
    ensures v.Collecting? ==> Seen(v) == |v.seen|
  {
  }

  /** From any view, seventy bytes without the first sync byte lead back to the beginning. */
  lemma {:induction false} GapMakesIdle(v: View, gap: seq<byte>)
    requires ValidView(v) && Noise(gap)
    ensures Run(v, gap).0 == Idle || Seen(Run(v, gap).0) > |gap|
    ensures |gap| >= 70 ==> Run(v, gap).0 == Idle
  {
    hide Run, Step, Seen;
    if gap == [] {
      RunNothing(v);
      StepSeen(v, 0);
    } else {
      var front, last := gap[..|gap| - 1], gap[|gap| - 1];
      GapMakesIdle(v, front);
      RunSnoc(v, gap);
      StepSeen(Run(v, front).0, last);
      StepSeen(Run(v, gap).0, last);
    }
  }

  /** So whatever was received before, every frame after such a gap is delivered, in order. */
  lemma DeliveredAfterGap(before: seq<byte>, gap: seq<byte>, ps: seq<Piece>, tail: seq<byte>)
    requires Noise(gap) && |gap| >= 70
    requires (forall i :: 0 <= i < |ps| ==> ps[i].Valid()) && Noise(tail)
    ensures var earlier := Run(Idle, before + gap).1;
            var (v, fs) := Run(Idle, before + gap + Stream(ps, tail));
            v == Idle && earlier <= fs && Deliveries(fs[|earlier|..]) == Expected(ps)
  {
    hide Run, Step, Stream, Deliveries, Expected;
    RunConcat(Idle, before, gap);
    GapMakesIdle(Run(Idle, before).0, gap);
    RunConcat(Idle, before + gap, Stream(ps, tail));
    StreamIsDelivered(ps, tail);
    var earlier, later := Run(Idle, before + gap).1, Run(Idle, Stream(ps, tail)).1;
    assert (earlier + later)[|earlier|..] == later;
  }
}
