/** The telemetry module: sending frames through the outbound queue to the UARTs. */
module Telem {
  import opened Bits
  import opened Machine
  import opened Telemetry
  import opened TelemProtocol

  const RXSM: nat := 0
  const DEBUG: nat := 3

  datatype TelemetryLevel = LevelFull | LevelMinimal

  const HEARTBEAT: byte := 1
  const TEXT_MESSAGE: byte := 2
  const CLOCK_STATUS: byte := 3
  const ACK: byte := 4
  const DIRECTORY_ENTRY: byte := 13
  const BINARY_DATA: byte := 14
  const ADC: byte := 20

  /** Frame types that are sent even at the minimal level of detail. */
  predicate IsEssentialFrameType(frameType: byte) {
    frameType in {HEARTBEAT, TEXT_MESSAGE, CLOCK_STATUS, ACK, BINARY_DATA, DIRECTORY_ENTRY, ADC}
  }

  /** These are heartbeats, texts, clock status, acknowledgements, directory entries, data and voltages. */
  lemma EssentialFrameTypes(frameType: byte)
    ensures IsEssentialFrameType(frameType) <==>
            1 <= frameType <= 4 || frameType == 13 || frameType == 14 || frameType == 20
  {
  }

  /** What a task does to send a frame while no other task interferes. */
  ghost function SendSteps<B>(task: nat, buf: B, request: Request, accepted: bool): seq<Action<B>> {
    [Begin(task, buf), Enter(task, request), Enqueue(task, accepted)] + if accepted then [] else [Release(task)]
  }

  ghost predicate Quiet<B>(st: State<B>) {
    st.senders == map[] && st.transmitter == None && st.lock == None
  }

  /** What sending a frame amounts to. */
  ghost function Sent<B>(st: State<B>, buf: B, request: Request, accepted: bool): State<B>
    requires |request.payload| <= MAX_PAYLOAD_LENGTH
  {
    var attempt := Attempt(request, st.seqNo, st.epoch);
    var st' := st.(seqNo := WrapByte(st.seqNo + 1), contents := st.contents[buf := FrameOf(attempt)],
                   history := Attempted(st.history, attempt, accepted));
    if accepted then
      st'.(owner := st.owner[buf := Queued],
           queue := st.queue + [Message(request.targets, buf, |request.payload| + 8)])
    else st'.(owner := st.owner[buf := Freed], freed := st.freed + [buf])
  }

  /** The steps are possible one after the other. */
  lemma SendSucceeds<B>(st: State<B>, buf: B, request: Request, accepted: bool)
    requires Quiet(st) && buf !in st.owner && |request.payload| <= MAX_PAYLOAD_LENGTH
    requires accepted ==> |st.queue| < QUEUE_SIZE
    ensures Enabled(st, Begin(0, buf)) && Enabled(Apply(st, Begin(0, buf)), Enter(0, request))
    ensures var st2 := Apply(Apply(st, Begin(0, buf)), Enter(0, request));
            && Enabled(st2, Enqueue(0, accepted))
            && (accepted ==> Apply(st2, Enqueue(0, accepted)) == Sent(st, buf, request, accepted))
            && (!accepted ==> Enabled(Apply(st2, Enqueue(0, accepted)), Release(0)) &&
                              Apply(Apply(st2, Enqueue(0, accepted)), Release(0)) == Sent(st, buf, request, accepted))
  {
    hide FrameOf, WrapByte, Attempted;
    var st3 := Apply(Apply(Apply(st, Begin(0, buf)), Enter(0, request)), Enqueue(0, accepted));
    if accepted {
      assert st3.senders == map[];
    } else {
      assert Apply(st3, Release(0)).senders == map[];
    }
  }

  lemma SendReaches<B>(run: seq<Action<B>>, st: State<B>, buf: B, request: Request, accepted: bool)
    requires Reaches(run, st) && Quiet(st) && buf !in st.owner && |request.payload| <= MAX_PAYLOAD_LENGTH
    requires accepted ==> |st.queue| < QUEUE_SIZE
    ensures Reaches(run + SendSteps(0, buf, request, accepted), Sent(st, buf, request, accepted))
  {
    SendSucceeds(st, buf, request, accepted);
    hide Run, CanRun, Apply, Enabled, Sent;
    var a: Action<B>, b: Action<B>, c: Action<B> := Begin(0, buf), Enter(0, request), Enqueue(0, accepted);
    RunSnoc(Initial<B>(), run, a);
    RunSnoc(Initial<B>(), run + [a], b);
    RunSnoc(Initial<B>(), run + [a] + [b], c);
    if !accepted {
      RunSnoc(Initial<B>(), run + [a] + [b] + [c], Release(0));
    }
    assert run + [a] + [b] + [c] + [Release(0)] == run + ([a, b, c] + [Release(0)]);
    assert run + [a] + [b] + [c] == run + ([a, b, c] + []);
  }

  lemma DeliverReaches<B>(run: seq<Action<B>>, st: State<B>)
    requires Reaches(run, st) && Quiet(st) && st.queue != [] && st.queue[0].data in st.contents
    ensures Reaches(run + [Receive, Transmit], Delivered(st))
  {
    hide Run, CanRun;
    RunSnoc(Initial<B>(), run, Receive);
    RunSnoc(Initial<B>(), run + [Receive], Transmit);
    assert run + [Receive] + [Transmit] == run + [Receive, Transmit];
    assert st.owner[st.queue[0].data := Transmitting][st.queue[0].data := Freed] == st.owner[st.queue[0].data := Freed];
  }

  /** What dropping the first n frames of the queue amounts to. */
  ghost function Drained<B>(st: State<B>, n: nat): (r: State<B>)
    requires n <= |st.queue|
    ensures r.queue == st.queue[n..] && Quiet(r) == Quiet(st) && r.contents == st.contents && r.output == st.output
    ensures r.seqNo == st.seqNo
  {
    if n == 0 then st else Apply(Drained(st, n - 1), Drop)
  }

  function Drops<B>(n: nat): seq<Action<B>> {
    seq(n, _ => Drop)
  }

  lemma {:induction false} DropsReach<B>(run: seq<Action<B>>, st: State<B>, n: nat)
    requires Reaches(run, st) && n <= |st.queue|
    ensures Reaches(run + Drops(n), Drained(st, n))
  {
    hide Run, CanRun, Apply;
    if n == 0 {
      assert run + Drops(0) == run;
    } else {
      DropsReach(run, st, n - 1);
      RunSnoc(Initial<B>(), run + Drops(n - 1), Drop);
      assert run + Drops(n - 1) + [Drop] == run + Drops(n);
    }
  }

  lemma DestroyReaches<B>(run: seq<Action<B>>, st: State<B>)
    requires Reaches(run, st) && Quiet(st)
    ensures Reaches(run + Drops(|st.queue|) + [Restart], Apply(Drained(st, |st.queue|), Restart))
  {
    hide Run, CanRun, Apply;
    DropsReach(run, st, |st.queue|);
    RunSnoc(Initial<B>(), run + Drops(|st.queue|), Restart);
  }

  /** What writing the first frame of the queue amounts to. */
  ghost function Delivered<B>(st: State<B>): State<B>
    requires st.queue != [] && st.queue[0].data in st.contents
  {
    var m := st.queue[0];
    st.(queue := st.queue[1..], owner := st.owner[m.data := Freed], freed := st.freed + [m.data],
        output := st.output + [(m.targets, st.contents[m.data])], history := Taken(st.history))
  }

  lemma {:induction false} WrittenSnoc(output: seq<(byte, seq<byte>)>, targets: byte, frame: seq<byte>, uart: nat)
    ensures Written(output + [(targets, frame)], uart) ==
            Written(output, uart) + if Selects(targets, uart) then frame else []
  {
    hide Selects;
    var last := [(targets, frame)];
    if output == [] {
      assert output + last == last && last[1..] == [];
      var w := if Selects(targets, uart) then frame else [];
      assert w + [] == w == [] + w;
    } else {
      WrittenSnoc(output[1..], targets, frame, uart);
      assert (output + last)[1..] == output[1..] + last;
      hide Written;
      WrittenCons(output, uart);
      WrittenCons(output + last, uart);
    }
  }

  lemma WrittenCons(output: seq<(byte, seq<byte>)>, uart: nat)
    requires output != []
    ensures Written(output, uart) ==
            (if Selects(output[0].0, uart) then output[0].1 else []) + Written(output[1..], uart)
  {
    hide Selects;
  }

  /** Tests a bit of the mask of target UARTs. */
  method IsTarget(targets: byte, uart: nat) returns (r: bool)
    requires uart == RXSM || uart == DEBUG
    ensures r == Selects(targets, uart)
    ensures r <==> targets / (if uart == RXSM then 1 else 8) % 2 == 1
  {
    AsBits(targets);
    LowestBit(targets as bv8);
    FourthBit(targets as bv8);
    if uart == DEBUG {
      assert Selects(targets, 3) == Selects(targets / 2, 2) == Selects(targets / 2 / 2, 1);
      assert targets / 2 / 2 / 2 == targets / 8;
      assert Selects(targets / 2 / 2, 1) == Selects(targets / 8, 0) == (targets / 8 % 2 == 1);
    }
    r := (targets as bv8) & (if uart == RXSM then 1 << 0 else 1 << 3) != 0;
  }

  lemma LowestBit(x: bv8)
    ensures (x & (1 << 0) != 0) == (x as nat % 2 == 1)
  {
  }

  lemma FourthBit(x: bv8)
    ensures (x & (1 << 3) != 0) == (x as nat / 8 % 2 == 1)
  {
    assert x & (1 << 3) != 0 <==> (x >> 3) & 1 == 1;
    LowestBit(x >> 3);
  }

  ghost function Buffers(q: seq<Message<array<byte>>>): set<array<byte>> {
    set m <- q :: m.data
  }

  /** The buffers of these messages hold just what they should. */
  ghost predicate Holds(q: seq<Message<array<byte>>>, contents: map<array<byte>, seq<byte>>)
    reads Buffers(q)
  {
    forall m <- q :: m.data in contents && m.data[..] == contents[m.data] && m.length == m.data.Length
  }

  lemma HoldsSnoc(q: seq<Message<array<byte>>>, contents: map<array<byte>, seq<byte>>, m: Message<array<byte>>)
    requires Holds(q, contents) && m.data !in Buffers(q) && m.length == m.data.Length
    ensures Holds(q + [m], contents[m.data := m.data[..]]) && Holds(q, contents[m.data := m.data[..]])
  {
  }

  /** The run of the protocol leads to just what the module has and what it has written. */
  ghost predicate Tracks<B>(run: seq<Action<B>>, st: State<B>, queue: seq<Message<B>>, seqNo: byte,
                            rxsm: seq<byte>, debug: seq<byte>) {
    && Reaches(run, st) && Quiet(st) && queue == st.queue && seqNo == st.seqNo
    && rxsm == Written(st.output, RXSM) && debug == Written(st.output, DEBUG)
  }

  lemma SentTracks<B>(run: seq<Action<B>>, st: State<B>, queue: seq<Message<B>>, seqNo: byte,
                      rxsm: seq<byte>, debug: seq<byte>, buf: B, request: Request, accepted: bool)
    requires Tracks(run, st, queue, seqNo, rxsm, debug)
    requires buf !in st.owner && |request.payload| <= MAX_PAYLOAD_LENGTH && (accepted ==> |queue| < QUEUE_SIZE)
    ensures var m := Message(request.targets, buf, |request.payload| + 8);
            Tracks(run + SendSteps(0, buf, request, accepted), Sent(st, buf, request, accepted),
                   queue + (if accepted then [m] else []), WrapByte(seqNo + 1), rxsm, debug)
    ensures Sent(st, buf, request, accepted).contents ==
            st.contents[buf := Frame(request.envelope.(seqNo := seqNo), request.payload)]
  {
    hide Reaches, Written, SendSteps, Frame, Attempted;
    SendReaches(run, st, buf, request, accepted);
    assert queue + [] == queue;
  }

  lemma DeliveredTracks<B>(run: seq<Action<B>>, st: State<B>, queue: seq<Message<B>>, seqNo: byte,
                           rxsm: seq<byte>, debug: seq<byte>)
    requires Tracks(run, st, queue, seqNo, rxsm, debug) && queue != [] && queue[0].data in st.contents
    ensures var (m, f) := (queue[0], st.contents[queue[0].data]);
            Tracks(run + [Receive, Transmit], Delivered(st), queue[1..], seqNo,
                   rxsm + (if Selects(m.targets, RXSM) then f else []),
                   debug + (if Selects(m.targets, DEBUG) then f else []))
    ensures queue == st.queue && Delivered(st).contents == st.contents
  {
    hide Reaches, Written, Selects, Taken;
    DeliverReaches(run, st);
    WrittenSnoc(st.output, queue[0].targets, st.contents[queue[0].data], RXSM);
    WrittenSnoc(st.output, queue[0].targets, st.contents[queue[0].data], DEBUG);
  }

  lemma DestroyedTracks<B>(run: seq<Action<B>>, st: State<B>, queue: seq<Message<B>>, seqNo: byte,
                           rxsm: seq<byte>, debug: seq<byte>)
    requires Tracks(run, st, queue, seqNo, rxsm, debug)
    ensures queue == st.queue
    ensures Tracks(run + Drops(|queue|) + [Restart], Apply(Drained(st, |queue|), Restart), [], 0, rxsm, debug)
  {
    hide Reaches, Written, Drained;
    DestroyReaches(run, st);
  }

  class Outbound {
    var level: TelemetryLevel
    var seqNo: byte
    var queue: seq<Message<array<byte>>>
    var closed: bool
    /** The bytes that each UART has been given. */
    var rxsm: seq<byte>
    var debug: seq<byte>

    ghost var st: State<array<byte>>
    ghost var run: seq<Action<array<byte>>>

    /** The module is where some run of the protocol leads, and the queued buffers hold the frames. */
    ghost predicate Valid()
      reads this, Buffers(queue)
    {
      Tracks(run, st, queue, seqNo, rxsm, debug) && Holds(queue, st.contents)
    }

    constructor ()
      ensures Valid() && run == [] && level == LevelFull && queue == [] && !closed && rxsm == debug == []
    {
      level, seqNo, queue, closed, rxsm, debug := LevelFull, 0, [], false, [], [];
      st, run := Initial<array<byte>>(), [];
    }

    /**
     * Sends a frame. The allocator and the queue may say no; a message that is not essential at the
     * minimal level is dropped and reported as sent.
     */
    method SendTo(targets: byte, envelope: Envelope, payload: array?<byte>, payloadLength: byte,
                  memoryLeft: bool, accepted: bool) returns (success: bool, ghost sent: array?<byte>)
      requires Valid() && (payload != null ==> payloadLength <= payload.Length)
      requires accepted ==> |queue| < QUEUE_SIZE && !closed
      modifies this
      ensures Valid() && level == old(level) && closed == old(closed) && rxsm == old(rxsm) && debug == old(debug)
      ensures var p := if payload == null then [] else payload[..payloadLength];
              if level == LevelMinimal && !IsEssentialFrameType(envelope.frameType) then
                success && unchanged(this)
              else if |p| > MAX_PAYLOAD_LENGTH || !memoryLeft then
                !success && unchanged(this)
              else
                && success == accepted && sent != null && fresh(sent) && sent.Length == |p| + 8
                && run == old(run) + SendSteps(0, sent, Request(targets, envelope, p), accepted)
                && st == Sent(old(st), sent, Request(targets, envelope, p), accepted)
    {
      sent := null;
      var length := if payload == null then 0 else payloadLength;
      if level != LevelFull && !IsEssentialFrameType(envelope.frameType) {
        return true, null;
      }
      var bufLength := MessageSize(length);
      if bufLength == 0 || !memoryLeft {
        return false, null;
      }
      var buf := new byte[bufLength];
      success := Post(targets, envelope, payload, length, buf, accepted);
      return success, buf;
    }

    /**
     * Takes a sequence number, serializes and enqueues, all under the mutex; frees the buffer if
     * the queue refuses.
     */
    method Post(targets: byte, envelope: Envelope, payload: array?<byte>, length: byte, buf: array<byte>,
                accepted: bool) returns (success: bool)
      requires Valid() && buf !in st.owner && buf !in Buffers(queue) && (accepted ==> |queue| < QUEUE_SIZE)
      requires length <= MAX_PAYLOAD_LENGTH && buf.Length == length + 8 && payload != buf
      requires if payload == null then length == 0 else length <= payload.Length
      modifies this, buf
      ensures Valid() && level == old(level) && rxsm == old(rxsm) && debug == old(debug)
      ensures closed == old(closed) && success == accepted
      ensures var request := Request(targets, envelope, old(if payload == null then [] else payload[..length]));
              run == old(run) + SendSteps(0, buf, request, accepted) && st == Sent(old(st), buf, request, accepted)
    {
      hide Tracks, Frame, SendSteps, Holds, Sent, MessageSize;
      ghost var request := Request(targets, envelope, if payload == null then [] else payload[..length]);
      SentTracks(run, st, queue, seqNo, rxsm, debug, buf, request, accepted);
      var stamped := envelope.(seqNo := seqNo);
      seqNo := WrapByte(seqNo + 1);
      success := Fill(buf, stamped, payload, length);
      if success {
        success := SendLowLevel(targets, buf, length + 8, accepted);
      }
      assert old(queue) + [] == old(queue);
      run, st := run + SendSteps(0, buf, request, accepted), Sent(st, buf, request, accepted);
      HoldsSnoc(old(queue), old(st.contents), Message(targets, buf, length + 8));
    }

    method SendLowLevel(targets: byte, data: array<byte>, length: byte, accepted: bool) returns (r: bool)
      modifies this`queue
      ensures r == accepted
      ensures queue == old(queue) + if accepted then [Message(targets, data, length)] else []
    {
      if accepted {
        queue := queue + [Message(targets, data, length)];
      }
      return accepted;
    }

    /** From now on the queue refuses messages; those that it holds can still be received. */
    method Close()
      requires Valid()
      modifies this`closed
      ensures Valid() && closed
    {
      closed := true;
    }

    /**
     * Writes the oldest frame to its target UARTs. Without one, it fails if the queue is closed;
     * otherwise it waits for one, and nothing has happened yet.
     */
    method ProcessNext() returns (r: Option<bool>)
      requires Valid()
      modifies this
      ensures Valid() && level == old(level) && closed == old(closed)
      ensures r == if old(queue) != [] then Some(true) else if closed then Some(false) else None
      ensures r != Some(true) ==> unchanged(this)
      ensures r == Some(true) ==>
                && run == old(run) + [Receive, Transmit] && st == Delivered(old(st))
                && rxsm == old(rxsm) + (if Selects(old(queue[0].targets), RXSM) then old(queue[0].data[..]) else [])
                && debug == old(debug) + (if Selects(old(queue[0].targets), DEBUG) then old(queue[0].data[..]) else [])
    {
      hide Tracks, Selects, Delivered;
      if queue == [] {
        return if closed then Some(false) else None;
      }
      var message := queue[0];
      DeliveredTracks(run, st, queue, seqNo, rxsm, debug);
      assert message.data[..message.length] == message.data[..] == st.contents[message.data];
      assert rxsm + [] == rxsm && debug + [] == debug;
      queue := queue[1..];
      var toRxsm := IsTarget(message.targets, RXSM);
      if toRxsm {
        rxsm := rxsm + message.data[..message.length];
      }
      var toDebug := IsTarget(message.targets, DEBUG);
      if toDebug {
        debug := debug + message.data[..message.length];
      }
      run, st := run + [Receive, Transmit], Delivered(st);
      return Some(true);
    }

    /** Drops whatever is still queued, and starts over. */
    method Destroy()
      requires Valid()
      modifies this
      ensures Valid() && level == LevelFull && seqNo == 0 && queue == [] && closed == old(closed)
      ensures rxsm == old(rxsm) && debug == old(debug)
      ensures run == old(run) + Drops(|old(queue)|) + [Restart]
      ensures st == Apply(Drained(old(st), |old(queue)|), Restart)
    {
      hide Tracks, Drained, Apply;
      DestroyedTracks(run, st, queue, seqNo, rxsm, debug);
      run, st := run + Drops(|queue|) + [Restart], Apply(Drained(st, |queue|), Restart);
      while queue != []
        modifies this`queue
        decreases |queue|
      {
        queue := queue[1..];
      }
      seqNo, level := 0, LevelFull;
    }
  }

  /** Serializes into a buffer of just the right size. */
  method Fill(buf: array<byte>, envelope: Envelope, payload: array?<byte>, length: byte) returns (ok: bool)
    requires length <= MAX_PAYLOAD_LENGTH && buf.Length == length + 8 && payload != buf
    requires if payload == null then length == 0 else length <= payload.Length
    modifies buf
    ensures ok && buf[..] == Frame(envelope, old(if payload == null then [] else payload[..length]))
  {
    hide Frame;
    var size := Serialize(buf, length + 8, envelope, payload, length);
    assert old(GivenPayload(buf, payload, length)) == old(if payload == null then [] else payload[..length]);
    return size > 0;
  }
}
