/**
 * The outbound telemetry queue as a protocol: any number of sending tasks, one transmitting task,
 * and a mutex that is held from taking a sequence number until the queue has answered.
 */
module TelemProtocol {
  import opened Machine
  import opened Telemetry
  import CrcCcitt
  import CrcErrors
  import Parser

  const QUEUE_SIZE: nat := 64

  datatype Request = Request(targets: byte, envelope: Envelope, payload: seq<byte>)

  /** A request that has taken a sequence number, after so many restarts of the numbers. */
  datatype Attempt = Attempt(request: Request, seqNo: byte, epoch: nat)

  datatype Message<B> = Message(targets: byte, data: B, length: nat)

  /** What a sending task is doing with its buffer. */
  datatype Sender<B> =
    | Allocated(buf: B)
    | InSection(buf: B, attempt: Attempt)
    | Refused(buf: B)

  /** Who is responsible for a buffer. */
  datatype Owner = HeldBy(task: nat) | Queued | Transmitting | Freed

  datatype State<B(==)> = State(
    seqNo: byte,
    epoch: nat,
    lock: Option<nat>,
    queue: seq<Message<B>>,
    senders: map<nat, Sender<B>>,
    transmitter: Option<Message<B>>,
    contents: map<B, seq<byte>>,
    owner: map<B, Owner>,
    freed: seq<B>,
    output: seq<(byte, seq<byte>)>,
    history: History)

  /**
   * The attempts to send, in the order in which the queue answered them, and what became of them:
   * waiting in the queue, taken out for the UARTs, or lost, because the queue refused them or
   * because they were dropped from it.
   */
  datatype History = History(attempts: seq<Attempt>, waiting: seq<nat>, taken: seq<nat>, lost: set<nat>)

  function Initial<B(==)>(): State<B> {
    State(0, 0, None, [], map[], None, map[], map[], [], [], History([], [], [], {}))
  }

  /** The frame of an attempt carries its sequence number. */
  function FrameOf(a: Attempt): seq<byte>
    requires |a.request.payload| <= MAX_PAYLOAD_LENGTH
  {
    Frame(a.request.envelope.(seqNo := a.seqNo), a.request.payload)
  }

  datatype Action<B> =
    | Begin(task: nat, buf: B)
    | Enter(task: nat, request: Request)
    | Enqueue(task: nat, accepted: bool)
    | Release(task: nat)
    | Receive
    | Transmit
    | Drop
    | Restart

  ghost predicate Enabled<B>(st: State<B>, a: Action<B>) {
    match a
    case Begin(t, buf) => t !in st.senders && buf !in st.owner
    case Enter(t, request) =>
      t in st.senders && st.senders[t].Allocated? && st.lock == None && |request.payload| <= MAX_PAYLOAD_LENGTH
    case Enqueue(t, accepted) =>
      t in st.senders && st.senders[t].InSection? && (accepted ==> |st.queue| < QUEUE_SIZE)
    case Release(t) => t in st.senders && st.senders[t].Refused?
    case Receive => st.queue != [] && st.transmitter == None
    case Transmit => st.transmitter.Some?
    case Drop => st.queue != []
    case Restart => true
  }

  ghost function Apply<B>(st: State<B>, a: Action<B>): State<B>
    requires Enabled(st, a)
  {
    match a
    case Begin(t, buf) =>
      st.(senders := st.senders[t := Allocated(buf)], owner := st.owner[buf := HeldBy(t)])
    case Enter(t, request) =>
      var buf := st.senders[t].buf;
      var attempt := Attempt(request, st.seqNo, st.epoch);
      st.(lock := Some(t), senders := st.senders[t := InSection(buf, attempt)],
          seqNo := WrapByte(st.seqNo + 1), contents := st.contents[buf := FrameOf(attempt)])
    case Enqueue(t, accepted) =>
      var InSection(buf, attempt) := st.senders[t];
      var request := attempt.request;
      var st' := st.(lock := None, history := Attempted(st.history, attempt, accepted));
      if accepted then
        st'.(senders := st.senders - {t}, owner := st.owner[buf := Queued],
             queue := st.queue + [Message(request.targets, buf, |request.payload| + 8)])
      else
        st'.(senders := st.senders[t := Refused(buf)])
    case Release(t) =>
      var buf := st.senders[t].buf;
      st.(senders := st.senders - {t}, owner := st.owner[buf := Freed], freed := st.freed + [buf])
    case Receive =>
      st.(queue := st.queue[1..], transmitter := Some(st.queue[0]),
          owner := st.owner[st.queue[0].data := Transmitting], history := Taken(st.history))
    case Transmit =>
      var m := st.transmitter.value;
      st.(transmitter := None, owner := st.owner[m.data := Freed], freed := st.freed + [m.data],
          output := st.output + [(m.targets, if m.data in st.contents then st.contents[m.data] else [])])
    case Drop =>
      st.(queue := st.queue[1..], owner := st.owner[st.queue[0].data := Freed],
          freed := st.freed + [st.queue[0].data], history := Dropped(st.history))
    case Restart =>
      st.(seqNo := 0, epoch := st.epoch + 1)
  }

  function Attempted(h: History, attempt: Attempt, accepted: bool): History {
    var n := |h.attempts|;
    if accepted then h.(attempts := h.attempts + [attempt], waiting := h.waiting + [n])
    else h.(attempts := h.attempts + [attempt], lost := h.lost + {n})
  }

  function Taken(h: History): History {
    if h.waiting == [] then h else h.(waiting := h.waiting[1..], taken := h.taken + [h.waiting[0]])
  }

  function Dropped(h: History): History {
    if h.waiting == [] then h else h.(waiting := h.waiting[1..], lost := h.lost + {h.waiting[0]})
  }

  function Datas<B>(q: seq<Message<B>>): (ds: seq<B>)
    ensures |ds| == |q| && forall i :: 0 <= i < |q| ==> ds[i] == q[i].data
  {
    seq(|q|, i requires 0 <= i < |q| => q[i].data)
  }

  // ----------------------------------------------------------------------------------------
  // Ownership
  // ----------------------------------------------------------------------------------------

  ghost predicate Distinct<B>(s: seq<B>) {
    forall i, j :: 0 <= i < j < |s| ==> s[i] != s[j]
  }

  lemma FirstLeaves<B>(s: seq<B>)
    requires Distinct(s) && s != []
    ensures Distinct(s[1..]) && forall b :: b in s[1..] <==> b in s && b != s[0]
  {
    var rest := s[1..];
    assert forall i :: 0 <= i < |rest| ==> rest[i] == s[i + 1];
    assert s == [s[0]] + rest;
  }

  lemma OneJoins<B>(s: seq<B>, b: B)
    requires Distinct(s) && b !in s
    ensures Distinct(s + [b]) && forall x :: x in s + [b] <==> x in s || x == b
  {
    forall i, j | 0 <= i < j < |s + [b]|
      ensures (s + [b])[i] != (s + [b])[j]
    {
      assert s[i] in s;
    }
  }

  lemma DatasOf<B>(q: seq<Message<B>>, m: Message<B>)
    ensures Datas(q + [m]) == Datas(q) + [m.data]
    ensures q != [] ==> Datas(q[1..]) == Datas(q)[1..] && q[0].data == Datas(q)[0]
  {
  }

  /** The buffer, if there is one, that the transmitting task is writing. */
  function DataOf<B>(m: Option<Message<B>>): Option<B> {
    if m.Some? then Some(m.value.data) else None
  }

  /** The owner of every buffer is where the buffer is, and nowhere is it twice. */
  ghost predicate Owned<B>(st: State<B>) {
    Placed(Datas(st.queue), st.freed, st.senders, DataOf(st.transmitter), st.owner)
  }

  ghost predicate Placed<B>(queued: seq<B>, freed: seq<B>, senders: map<nat, Sender<B>>, busy: Option<B>,
                            owner: map<B, Owner>) {
    && Distinct(queued) && Distinct(freed)
    && (forall b :: b in queued ==> b in owner)
    && (forall b :: b in freed ==> b in owner)
    && (forall t :: t in senders ==> senders[t].buf in owner && owner[senders[t].buf] == HeldBy(t))
    && (busy.Some? ==> busy.value in owner)
    && forall b :: b in owner ==>
         && (owner[b] == Queued <==> b in queued) && (owner[b] == Freed <==> b in freed)
         && (owner[b] == Transmitting <==> busy == Some(b))
         && (owner[b].HeldBy? ==> owner[b].task in senders && senders[owner[b].task].buf == b)
  }

  // What the moves of a buffer do to its place.

  lemma PlaceNew<B>(queued: seq<B>, freed: seq<B>, senders: map<nat, Sender<B>>, busy: Option<B>,
                    owner: map<B, Owner>, t: nat, s: Sender<B>)
    requires Placed(queued, freed, senders, busy, owner) && t !in senders && s.buf !in owner
    ensures Placed(queued, freed, senders[t := s], busy, owner[s.buf := HeldBy(t)])
  {
    hide Distinct;
  }

  lemma PlaceSame<B>(queued: seq<B>, freed: seq<B>, senders: map<nat, Sender<B>>, busy: Option<B>,
                     owner: map<B, Owner>, t: nat, s: Sender<B>)
    requires Placed(queued, freed, senders, busy, owner) && t in senders && s.buf == senders[t].buf
    ensures Placed(queued, freed, senders[t := s], busy, owner)
  {
    hide Distinct;
  }

  lemma PlaceQueued<B>(queued: seq<B>, freed: seq<B>, senders: map<nat, Sender<B>>, busy: Option<B>,
                       owner: map<B, Owner>, t: nat)
    requires Placed(queued, freed, senders, busy, owner) && t in senders
    ensures Placed(queued + [senders[t].buf], freed, senders - {t}, busy, owner[senders[t].buf := Queued])
  {
    hide Distinct;
    OneJoins(queued, senders[t].buf);
  }

  lemma PlaceReleased<B>(queued: seq<B>, freed: seq<B>, senders: map<nat, Sender<B>>, busy: Option<B>,
                         owner: map<B, Owner>, t: nat)
    requires Placed(queued, freed, senders, busy, owner) && t in senders
    ensures Placed(queued, freed + [senders[t].buf], senders - {t}, busy, owner[senders[t].buf := Freed])
  {
    hide Distinct;
    OneJoins(freed, senders[t].buf);
  }

  lemma PlaceReceived<B>(queued: seq<B>, freed: seq<B>, senders: map<nat, Sender<B>>, busy: Option<B>,
                         owner: map<B, Owner>)
    requires Placed(queued, freed, senders, busy, owner) && queued != [] && busy == None
    ensures Placed(queued[1..], freed, senders, Some(queued[0]), owner[queued[0] := Transmitting])
  {
    hide Distinct;
    FirstLeaves(queued);
  }

  lemma PlaceTransmitted<B>(queued: seq<B>, freed: seq<B>, senders: map<nat, Sender<B>>, busy: Option<B>,
                            owner: map<B, Owner>)
    requires Placed(queued, freed, senders, busy, owner) && busy.Some?
    ensures Placed(queued, freed + [busy.value], senders, None, owner[busy.value := Freed])
  {
    hide Distinct;
    OneJoins(freed, busy.value);
  }

  lemma PlaceDropped<B>(queued: seq<B>, freed: seq<B>, senders: map<nat, Sender<B>>, busy: Option<B>,
                        owner: map<B, Owner>)
    requires Placed(queued, freed, senders, busy, owner) && queued != []
    ensures Placed(queued[1..], freed + [queued[0]], senders, busy, owner[queued[0] := Freed])
  {
    hide Distinct;
    FirstLeaves(queued);
    OneJoins(freed, queued[0]);
  }

  lemma OwnedEnqueue<B>(st: State<B>, a: Action<B>)
    requires Owned(st) && a.Enqueue? && Enabled(st, a)
    ensures Owned(Apply(st, a))
  {
    hide Datas, Attempted, Placed;
    var (t, queued, busy) := (a.task, Datas(st.queue), DataOf(st.transmitter));
    var InSection(buf, attempt) := st.senders[t];
    if a.accepted {
      DatasOf(st.queue, Message(attempt.request.targets, buf, |attempt.request.payload| + 8));
      PlaceQueued(queued, st.freed, st.senders, busy, st.owner, t);
    } else {
      PlaceSame(queued, st.freed, st.senders, busy, st.owner, t, Refused(buf));
    }
  }

  lemma OwnedKept<B>(st: State<B>, a: Action<B>)
    requires Owned(st) && Enabled(st, a)
    ensures Owned(Apply(st, a))
  {
    hide Datas, Placed, FrameOf, Attempted, Taken, Dropped;
    var (queued, busy) := (Datas(st.queue), DataOf(st.transmitter));
    match a
    case Begin(t, buf) => PlaceNew(queued, st.freed, st.senders, busy, st.owner, t, Allocated(buf));
    case Enter(t, request) =>
      var s := InSection(st.senders[t].buf, Attempt(request, st.seqNo, st.epoch));
      PlaceSame(queued, st.freed, st.senders, busy, st.owner, t, s);
    case Enqueue(_, _) => OwnedEnqueue(st, a);
    case Release(t) => PlaceReleased(queued, st.freed, st.senders, busy, st.owner, t);
    case Receive =>
      DatasOf(st.queue, st.queue[0]);
      PlaceReceived(queued, st.freed, st.senders, busy, st.owner);
    case Transmit => PlaceTransmitted(queued, st.freed, st.senders, busy, st.owner);
    case Drop =>
      DatasOf(st.queue, st.queue[0]);
      PlaceDropped(queued, st.freed, st.senders, busy, st.owner);
    case Restart =>
  }

  // ----------------------------------------------------------------------------------------
  // Order
  // ----------------------------------------------------------------------------------------

  ghost predicate Increasing(ns: seq<nat>) {
    forall i, j :: 0 <= i < j < |ns| ==> ns[i] < ns[j]
  }

  /** Every attempt was taken, waits or is lost, and it is their turn in the order of their numbers. */
  ghost predicate Consistent(h: History) {
    && Increasing(h.taken + h.waiting)
    && (forall n :: n in h.taken + h.waiting ==> n < |h.attempts| && n !in h.lost)
    && (forall n :: n in h.lost ==> n < |h.attempts|)
    && (forall n :: 0 <= n < |h.attempts| ==> n in h.taken + h.waiting || n in h.lost)
  }

  /** A message carries the frame of the attempt it belongs to. */
  ghost predicate Carries<B>(attempts: seq<Attempt>, contents: map<B, seq<byte>>, m: Message<B>, n: nat) {
    n < |attempts| && CarriesFrame(contents, m, attempts[n])
  }

  ghost predicate CarriesFrame<B>(contents: map<B, seq<byte>>, m: Message<B>, a: Attempt) {
    && |a.request.payload| <= MAX_PAYLOAD_LENGTH
    && m.targets == a.request.targets && m.length == |a.request.payload| + 8
    && m.data in contents && contents[m.data] == FrameOf(a)
  }

  predicate IsAttempt(attempts: seq<Attempt>, sent: (byte, seq<byte>), n: nat) {
    && n < |attempts| && |attempts[n].request.payload| <= MAX_PAYLOAD_LENGTH
    && sent == (attempts[n].request.targets, FrameOf(attempts[n]))
  }

  ghost predicate QueueOrdered<B>(st: State<B>) {
    && |st.queue| == |st.history.waiting|
    && forall i :: 0 <= i < |st.queue| ==>
         Carries(st.history.attempts, st.contents, st.queue[i], st.history.waiting[i])
  }

  ghost predicate OutputOrdered<B>(st: State<B>) {
    var h := st.history;
    && |h.taken| == |st.output| + (if st.transmitter.Some? then 1 else 0)
    && (forall i :: 0 <= i < |st.output| ==> IsAttempt(h.attempts, st.output[i], h.taken[i]))
    && (st.transmitter.Some? ==> Carries(h.attempts, st.contents, st.transmitter.value, h.taken[|st.output|]))
  }

  /** The number after a given attempt: its successor, or zero if the numbers have started over. */
  function NumberAfter(a: Attempt, epoch: nat): byte {
    if a.epoch == epoch then WrapByte(a.seqNo + 1) else 0
  }

  /** Every attempt took the number after the attempt before it; the first one took zero. */
  ghost predicate Numbered(attempts: seq<Attempt>) {
    && (attempts != [] ==> attempts[0].seqNo == 0)
    && forall k :: 0 < k < |attempts| ==>
         && attempts[k].seqNo == NumberAfter(attempts[k - 1], attempts[k].epoch)
         && attempts[k - 1].epoch <= attempts[k].epoch
  }

  /** The number to be taken next is the one after the last attempt. */
  ghost predicate UpToDate(attempts: seq<Attempt>, seqNo: byte, epoch: nat) {
    && Numbered(attempts)
    && if attempts == [] then seqNo == 0
       else
         var last := attempts[|attempts| - 1];
         last.epoch <= epoch && seqNo == NumberAfter(last, epoch)
  }

  /** The attempts that have taken a number: those that the queue has answered, and the one in the section. */
  ghost function Begun<B>(st: State<B>): seq<Attempt> {
    st.history.attempts +
    if st.lock.Some? && st.lock.value in st.senders && st.senders[st.lock.value].InSection? then
      [st.senders[st.lock.value].attempt]
    else []
  }

  ghost predicate Counts<B>(st: State<B>) {
    |st.queue| <= QUEUE_SIZE && UpToDate(Begun(st), st.seqNo, st.epoch)
  }

  /** What was written, is being written or is queued belongs to the attempts that the history says. */
  ghost predicate Ordered<B>(st: State<B>) {
    Counts(st) && Consistent(st.history) && QueueOrdered(st) && OutputOrdered(st)
  }

  /** Exactly the task that holds the mutex is in the section, and its frame is ready. */
  ghost predicate Exclusive<B>(st: State<B>) {
    && (forall t :: t in st.senders && st.senders[t].InSection? ==> st.lock == Some(t))
    && (st.lock.Some? ==> st.lock.value in st.senders && st.senders[st.lock.value].InSection?)
    && (st.lock.Some? ==>
          var InSection(buf, attempt) := st.senders[st.lock.value];
          |attempt.request.payload| <= MAX_PAYLOAD_LENGTH && buf in st.contents &&
          st.contents[buf] == FrameOf(attempt))
  }

  ghost predicate Invariant<B>(st: State<B>) {
    Owned(st) && Ordered(st) && Exclusive(st)
  }

  lemma ExclusiveKept<B>(st: State<B>, a: Action<B>)
    requires Invariant(st) && Enabled(st, a)
    ensures Exclusive(Apply(st, a))
  {
    hide FrameOf, Consistent, QueueOrdered, OutputOrdered, Counts;
  }

  lemma TakesNumber(attempts: seq<Attempt>, a: Attempt)
    requires UpToDate(attempts, a.seqNo, a.epoch)
    ensures UpToDate(attempts + [a], WrapByte(a.seqNo + 1), a.epoch)
  {
    var all := attempts + [a];
    forall k | 0 < k < |all|
      ensures all[k].seqNo == NumberAfter(all[k - 1], all[k].epoch) && all[k - 1].epoch <= all[k].epoch
    {
      if k < |attempts| {
        assert all[k] == attempts[k] && all[k - 1] == attempts[k - 1];
      }
    }
  }

  lemma StartsOver(attempts: seq<Attempt>, seqNo: byte, epoch: nat)
    requires UpToDate(attempts, seqNo, epoch)
    ensures UpToDate(attempts, 0, epoch + 1)
  {
  }

  /** Taking a number is the only action that begins an attempt. */
  lemma BegunGrows<B>(st: State<B>, a: Action<B>)
    requires Exclusive(st) && Enabled(st, a)
    ensures Begun(Apply(st, a)) == Begun(st) + if a.Enter? then [Attempt(a.request, st.seqNo, st.epoch)] else []
  {
    hide FrameOf;
    var st' := Apply(st, a);
    assert st'.history.attempts + [] == st'.history.attempts;
    assert Begun(st) + [] == Begun(st);
  }

  lemma NumbersAfter<B>(st: State<B>, a: Action<B>)
    requires Enabled(st, a) && |st.queue| <= QUEUE_SIZE
    ensures var st' := Apply(st, a);
            && st'.epoch == st.epoch + (if a.Restart? then 1 else 0) && |st'.queue| <= QUEUE_SIZE
            && st'.seqNo == if a.Enter? then WrapByte(st.seqNo + 1) else if a.Restart? then 0 else st.seqNo
  {
    hide FrameOf, Attempted, Taken, Dropped;
  }

  lemma CountsKept<B>(st: State<B>, a: Action<B>)
    requires Counts(st) && Exclusive(st) && Enabled(st, a)
    ensures Counts(Apply(st, a))
  {
    hide Begun, Exclusive, UpToDate, Apply, Enabled, FrameOf, WrapByte;
    BegunGrows(st, a);
    NumbersAfter(st, a);
    assert Begun(st) + [] == Begun(st);
    if a.Enter? {
      TakesNumber(Begun(st), Attempt(a.request, st.seqNo, st.epoch));
    } else if a.Restart? {
      StartsOver(Begun(st), st.seqNo, st.epoch);
    }
  }

  lemma AttemptedIsConsistent(h: History, attempt: Attempt, accepted: bool)
    requires Consistent(h)
    ensures Consistent(Attempted(h, attempt, accepted))
  {
    var all, n := h.taken + h.waiting, |h.attempts|;
    assert h.taken + (h.waiting + [n]) == all + [n];
    assert forall i :: 0 <= i < |all| ==> all[i] in all;
  }

  lemma TakenIsConsistent(h: History)
    requires Consistent(h)
    ensures Consistent(Taken(h))
  {
    if h.waiting != [] {
      assert (h.taken + [h.waiting[0]]) + h.waiting[1..] == h.taken + h.waiting;
    }
  }

  lemma MiddleLeaves(a: seq<nat>, b: seq<nat>)
    requires Increasing(a + b) && b != []
    ensures Increasing(a + b[1..]) && forall n :: n in a + b[1..] <==> n in a + b && n != b[0]
  {
    var all, rest, t := a + b, a + b[1..], |a|;
    forall i | 0 <= i < |rest|
      ensures rest[i] == all[if i < t then i else i + 1] && rest[i] != b[0]
    {
      assert all[t] == b[0];
    }
    forall i, j | 0 <= i < j < |rest|
      ensures rest[i] < rest[j]
    {
      assert all[if i < t then i else i + 1] < all[if j < t then j else j + 1];
    }
    assert b == [b[0]] + b[1..];
    forall n
      ensures n in rest <==> n in all && n != b[0]
    {
      assert n in rest <==> n in a || n in b[1..];
      assert n in all <==> n in a || n in b;
      assert n in b <==> n == b[0] || n in b[1..];
    }
  }

  lemma DroppedIsConsistent(h: History)
    requires Consistent(h)
    ensures Consistent(Dropped(h))
  {
    hide Increasing;
    if h.waiting != [] {
      MiddleLeaves(h.taken, h.waiting);
      assert h.waiting[0] in h.taken + h.waiting;
    }
  }

  lemma ConsistentKept<B>(st: State<B>, a: Action<B>)
    requires Consistent(st.history) && Enabled(st, a)
    ensures Consistent(Apply(st, a).history)
  {
    hide FrameOf, Attempted, Taken, Dropped;
    match a
    case Begin(_, _) =>
    case Enter(_, _) =>
    case Enqueue(t, accepted) => AttemptedIsConsistent(st.history, st.senders[t].attempt, accepted);
    case Release(_) =>
    case Receive => TakenIsConsistent(st.history);
    case Transmit =>
    case Drop => DroppedIsConsistent(st.history);
    case Restart =>
  }

  /** A buffer that a task holds is neither in the queue nor with the transmitter. */
  lemma HeldIsElsewhere<B>(st: State<B>, t: nat)
    requires Owned(st) && t in st.senders
    ensures forall i :: 0 <= i < |st.queue| ==> st.queue[i].data != st.senders[t].buf
    ensures st.transmitter.Some? ==> st.transmitter.value.data != st.senders[t].buf
  {
    assert forall i :: 0 <= i < |st.queue| ==> Datas(st.queue)[i] == st.queue[i].data;
  }

  lemma OrderedEnter<B>(st: State<B>, a: Action<B>)
    requires Owned(st) && QueueOrdered(st) && OutputOrdered(st) && a.Enter? && Enabled(st, a)
    ensures QueueOrdered(Apply(st, a)) && OutputOrdered(Apply(st, a))
  {
    hide IsAttempt, Owned, FrameOf;
    HeldIsElsewhere(st, a.task);
  }

  lemma OrderedEnqueue<B>(st: State<B>, a: Action<B>)
    requires QueueOrdered(st) && OutputOrdered(st) && Exclusive(st) && a.Enqueue? && Enabled(st, a)
    ensures QueueOrdered(Apply(st, a)) && OutputOrdered(Apply(st, a))
  {
    hide IsAttempt, CarriesFrame, Exclusive;
    AttemptsGrow(st.history.attempts, st.senders[a.task].attempt);
    EnqueuedCarries(st, a);
  }

  /** What was said of earlier attempts stays true when another one is made. */
  lemma AttemptsGrow(attempts: seq<Attempt>, attempt: Attempt)
    ensures forall sent, n :: IsAttempt(attempts, sent, n) ==> IsAttempt(attempts + [attempt], sent, n)
  {
    hide FrameOf;
  }

  lemma EnqueuedCarries<B>(st: State<B>, a: Action<B>)
    requires Exclusive(st) && a.Enqueue? && Enabled(st, a)
    ensures var InSection(buf, attempt) := st.senders[a.task];
            CarriesFrame(st.contents, Message(attempt.request.targets, buf, |attempt.request.payload| + 8), attempt)
  {
    hide FrameOf;
  }

  lemma OrderedReceive<B>(st: State<B>, a: Action<B>)
    requires QueueOrdered(st) && OutputOrdered(st) && (a.Receive? || a.Drop?) && Enabled(st, a)
    ensures QueueOrdered(Apply(st, a)) && OutputOrdered(Apply(st, a))
  {
    hide IsAttempt, Carries;
    assert Carries(st.history.attempts, st.contents, st.queue[0], st.history.waiting[0]);
  }

  lemma OrderedTransmit<B>(st: State<B>, a: Action<B>)
    requires QueueOrdered(st) && OutputOrdered(st) && a.Transmit? && Enabled(st, a)
    ensures QueueOrdered(Apply(st, a)) && OutputOrdered(Apply(st, a))
  {
    hide Frame, FrameOf;
  }

  lemma OrderedOtherwise<B>(st: State<B>, a: Action<B>)
    requires QueueOrdered(st) && OutputOrdered(st) && (a.Begin? || a.Release? || a.Restart?)
    requires Enabled(st, a)
    ensures QueueOrdered(Apply(st, a)) && OutputOrdered(Apply(st, a))
  {
    hide IsAttempt, Carries;
  }

  lemma OrderedKept<B>(st: State<B>, a: Action<B>)
    requires Invariant(st) && Enabled(st, a)
    ensures Ordered(Apply(st, a))
  {
    CountsKept(st, a);
    ConsistentKept(st, a);
    hide Counts, Consistent, QueueOrdered, OutputOrdered, Apply;
    match a
    case Begin(_, _) => OrderedOtherwise(st, a);
    case Enter(_, _) => OrderedEnter(st, a);
    case Enqueue(_, _) => OrderedEnqueue(st, a);
    case Release(_) => OrderedOtherwise(st, a);
    case Receive => OrderedReceive(st, a);
    case Transmit => OrderedTransmit(st, a);
    case Drop => OrderedReceive(st, a);
    case Restart => OrderedOtherwise(st, a);
  }

  lemma InvariantKept<B>(st: State<B>, a: Action<B>)
    requires Invariant(st) && Enabled(st, a)
    ensures Invariant(Apply(st, a))
  {
    hide Owned, Ordered, Exclusive, Apply;
    OwnedKept(st, a);
    OrderedKept(st, a);
    ExclusiveKept(st, a);
  }

  // ----------------------------------------------------------------------------------------
  // Runs
  // ----------------------------------------------------------------------------------------

  /** Every action of a run is enabled where it is taken. */
  ghost predicate CanRun<B>(st: State<B>, run: seq<Action<B>>)
    decreases run
  {
    run == [] || (Enabled(st, run[0]) && CanRun(Apply(st, run[0]), run[1..]))
  }

  ghost function Run<B>(st: State<B>, run: seq<Action<B>>): State<B>
    requires CanRun(st, run)
    decreases run
  {
    if run == [] then st else Run(Apply(st, run[0]), run[1..])
  }

  /** A run can be prolonged by whatever is enabled at its end. */
  lemma {:induction false} RunSnoc<B>(st: State<B>, run: seq<Action<B>>, a: Action<B>)
    requires CanRun(st, run) && Enabled(Run(st, run), a)
    ensures CanRun(st, run + [a])
    ensures Run(st, run + [a]) == Apply(Run(st, run), a)
    decreases run
  {
    hide Apply, Enabled;
    if run == [] {
      assert run + [a] == [a] && [a][1..] == [];
    } else {
      assert (run + [a])[1..] == run[1..] + [a];
      RunSnoc(Apply(st, run[0]), run[1..], a);
    }
  }

  lemma {:induction false} RunKeepsInvariant<B>(st: State<B>, run: seq<Action<B>>)
    requires Invariant(st) && CanRun(st, run)
    ensures Invariant(Run(st, run))
    decreases run
  {
    hide Invariant, Apply, Enabled;
    if run != [] {
      InvariantKept(st, run[0]);
      RunKeepsInvariant(Apply(st, run[0]), run[1..]);
    }
  }

  /** The run leads from the beginning to the state. */
  ghost predicate Reaches<B>(run: seq<Action<B>>, st: State<B>) {
    CanRun(Initial<B>(), run) && Run(Initial<B>(), run) == st
  }

  lemma InitialHolds<B>()
    ensures Invariant(Initial<B>())
  {
  }

  lemma ReachedHolds<B>(run: seq<Action<B>>, st: State<B>)
    requires Reaches(run, st)
    ensures Invariant(st)
  {
    hide Run, CanRun, Invariant;
    InitialHolds<B>();
    RunKeepsInvariant(Initial<B>(), run);
  }

  // ----------------------------------------------------------------------------------------
  // Ownership over whole runs
  // ----------------------------------------------------------------------------------------

  ghost function Count<B>(s: seq<B>, b: B): nat {
    if s == [] then 0 else (if s[0] == b then 1 else 0) + Count(s[1..], b)
  }

  lemma {:induction false} CountDistinct<B>(s: seq<B>, b: B)
    requires Distinct(s)
    ensures Count(s, b) == if b in s then 1 else 0
  {
    if s != [] {
      assert Distinct(s[1..]) by {
        assert forall i :: 0 <= i < |s| - 1 ==> s[1..][i] == s[i + 1];
      }
      CountDistinct(s[1..], b);
    }
  }

  /**
   * At any time in any run, however the tasks interleave, and whenever the queue is emptied and
   * the sequence numbers start over, a buffer is in exactly one place.
   */
  lemma InOnePlace<B>(run: seq<Action<B>>, st: State<B>, b: B)
    requires Reaches(run, st) && b in st.owner
    ensures Count(Datas(st.queue), b) + Count(st.freed, b)
            + (if st.transmitter.Some? && st.transmitter.value.data == b then 1 else 0)
            + (if st.owner[b].HeldBy? then 1 else 0) == 1
    ensures forall t :: t in st.senders && st.senders[t].buf == b <==> st.owner[b] == HeldBy(t)
  {
    hide Reaches, Ordered, Exclusive;
    ReachedHolds(run, st);
    CountDistinct(Datas(st.queue), b);
    CountDistinct(st.freed, b);
  }

  /**
   * Once every task is done with its buffer, each buffer ever allocated is in the queue exactly
   * once or was freed exactly once, and not both.
   */
  lemma QueuedOnceOrFreedOnce<B>(run: seq<Action<B>>, st: State<B>, b: B)
    requires Reaches(run, st) && st.senders == map[] && st.transmitter == None && b in st.owner
    ensures Count(Datas(st.queue), b) + Count(st.freed, b) == 1
  {
    InOnePlace(run, st, b);
  }

  // ----------------------------------------------------------------------------------------
  // Order over whole runs
  // ----------------------------------------------------------------------------------------

  /** How many of the numbers from a up to b, exclusive, are lost. */
  function LostBetween(lost: set<nat>, a: nat, b: nat): nat
    decreases b - a
  {
    if a >= b then 0 else (if a in lost then 1 else 0) + LostBetween(lost, a + 1, b)
  }

  lemma {:induction false} AllLost(lost: set<nat>, a: nat, b: nat)
    requires a <= b && forall n :: a <= n < b ==> n in lost
    ensures LostBetween(lost, a, b) == b - a
    decreases b - a
  {
    if a < b {
      AllLost(lost, a + 1, b);
    }
  }

  /** Between two attempts that were taken one after the other, everything is lost. */
  lemma SkippedAreLost(h: History, i: nat)
    requires Consistent(h) && i < |h.taken|
    ensures var first := if i == 0 then 0 else h.taken[i - 1] + 1;
            first <= h.taken[i] && LostBetween(h.lost, first, h.taken[i]) == h.taken[i] - first
  {
    var all := h.taken + h.waiting;
    var first := if i == 0 then 0 else h.taken[i - 1] + 1;
    assert forall k :: 0 <= k < |h.taken| ==> all[k] == h.taken[k];
    assert h.taken[i] in all;
    forall n | first <= n < h.taken[i]
      ensures n in h.lost
    {
      forall k | 0 <= k < |all|
        ensures all[k] != n
      {
      }
    }
    AllLost(h.lost, first, h.taken[i]);
  }

  /** The first attempt after the same restart as the n-th one. */
  function EpochStart(attempts: seq<Attempt>, n: nat): (m: nat)
    requires n < |attempts|
    ensures m <= n && attempts[m].epoch == attempts[n].epoch
    ensures m > 0 ==> attempts[m - 1].epoch != attempts[m].epoch
  {
    if n > 0 && attempts[n - 1].epoch == attempts[n].epoch then EpochStart(attempts, n - 1) else n
  }

  /** The sequence number of an attempt says how many attempts there were before it since the numbers started over. */
  lemma {:induction false} NumberCounts(attempts: seq<Attempt>, n: nat)
    requires Numbered(attempts) && n < |attempts|
    ensures attempts[n].seqNo == WrapByte(n - EpochStart(attempts, n))
  {
    hide Numbered, WrapByte;
    if n > 0 && attempts[n - 1].epoch == attempts[n].epoch {
      NumberCounts(attempts, n - 1);
      NumberGrows(attempts, n, EpochStart(attempts, n - 1));
    } else {
      FirstNumber(attempts, n);
    }
  }

  lemma NumberGrows(attempts: seq<Attempt>, n: nat, m: nat)
    requires Numbered(attempts) && m < n < |attempts| && attempts[n - 1].epoch == attempts[n].epoch
    requires attempts[n - 1].seqNo == WrapByte(n - 1 - m)
    ensures attempts[n].seqNo == WrapByte(n - m)
  {
    NumberedAt(attempts, n);
    hide Numbered;
    WrapByteAdds(n - 1 - m, 1);
  }

  lemma FirstNumber(attempts: seq<Attempt>, n: nat)
    requires Numbered(attempts) && n < |attempts|
    requires n > 0 ==> attempts[n - 1].epoch != attempts[n].epoch
    ensures attempts[n].seqNo == WrapByte(n - n)
  {
    NumberedAt(attempts, n);
  }

  lemma NumberedAt(attempts: seq<Attempt>, n: nat)
    requires Numbered(attempts) && n < |attempts|
    ensures attempts[n].seqNo == if n == 0 then 0 else NumberAfter(attempts[n - 1], attempts[n].epoch)
  {
  }

  lemma {:induction false} EpochsAscend(attempts: seq<Attempt>, m: nat, n: nat)
    requires Numbered(attempts) && m <= n < |attempts|
    ensures attempts[m].epoch <= attempts[n].epoch
    ensures attempts[m].epoch == attempts[n].epoch ==> EpochStart(attempts, m) == EpochStart(attempts, n)
  {
    if m < n {
      EpochsAscend(attempts, m, n - 1);
    }
  }

  lemma AttemptsAreNumbered<B>(st: State<B>)
    requires Counts(st)
    ensures Numbered(st.history.attempts)
  {
    var all, attempts := Begun(st), st.history.attempts;
    assert forall k :: 0 <= k < |attempts| ==> all[k] == attempts[k];
    forall k | 0 < k < |attempts|
      ensures attempts[k].seqNo == NumberAfter(attempts[k - 1], attempts[k].epoch)
      ensures attempts[k - 1].epoch <= attempts[k].epoch
    {
      assert all[k - 1] == attempts[k - 1];
    }
  }

  /**
   * In every run, the i-th frame written is the one of the i-th attempt taken from the queue, these
   * attempts are in order, and its sequence number counts the attempts since the numbers started
   * over.
   */
  lemma FramesAreInOrder<B>(run: seq<Action<B>>, st: State<B>, i: nat)
    requires Reaches(run, st) && i < |st.output|
    ensures i < |st.history.taken| && IsAttempt(st.history.attempts, st.output[i], st.history.taken[i])
    ensures |st.output[i].1| >= 8
    ensures st.output[i].1[2] == WrapByte(st.history.taken[i] - EpochStart(st.history.attempts, st.history.taken[i]))
    ensures i > 0 ==> st.history.taken[i - 1] < st.history.taken[i]
  {
    hide Reaches, Owned, Exclusive, QueueOrdered, LostBetween, FrameOf, Numbered, EpochStart;
    ReachedHolds(run, st);
    AttemptsAreNumbered(st);
    SkippedAreLost(st.history, i);
    hide Counts, Consistent;
    NumberOnFrame(st.history.attempts, st.output[i], st.history.taken[i]);
  }

  /** The numbers did not start over between the i-th attempt taken and the one taken before it. */
  predicate SameEpoch(h: History, i: nat) {
    && 0 < i < |h.taken| && h.taken[i - 1] < |h.attempts| && h.taken[i] < |h.attempts|
    && h.attempts[h.taken[i - 1]].epoch == h.attempts[h.taken[i]].epoch
  }

  /**
   * So unless the numbers started over in between, the sequence number of a frame is the successor
   * of the previous one plus the number of attempts lost in between, modulo 256.
   */
  lemma GapsAreLosses<B>(run: seq<Action<B>>, st: State<B>, i: nat)
    requires Reaches(run, st) && i < |st.output| && SameEpoch(st.history, i)
    ensures |st.output[i - 1].1| >= 8 && |st.output[i].1| >= 8
    ensures var lost := LostBetween(st.history.lost, st.history.taken[i - 1] + 1, st.history.taken[i]);
            st.output[i].1[2] == WrapByte(st.output[i - 1].1[2] + 1 + lost)
  {
    hide Reaches, IsAttempt, LostBetween, EpochStart, WrapByte;
    var h, m, n := st.history, st.history.taken[i - 1], st.history.taken[i];
    FramesAreInOrder(run, st, i - 1);
    FramesAreInOrder(run, st, i);
    ReachedHolds(run, st);
    AttemptsAreNumbered(st);
    SkippedAreLost(h, i);
    EpochsAscend(h.attempts, m, n);
    hide Invariant;
    WrapByteAdds(m - EpochStart(h.attempts, m), n - m);
  }

  lemma NumberOnFrame(attempts: seq<Attempt>, sent: (byte, seq<byte>), n: nat)
    requires Numbered(attempts) && IsAttempt(attempts, sent, n)
    ensures |sent.1| >= 8 && sent.1[2] == WrapByte(n - EpochStart(attempts, n))
  {
    hide FrameOf, Numbered;
    NumberCounts(attempts, n);
    SequenceByte(attempts[n]);
  }

  /** An attempt is lost, has been taken or waits; in a moment without transmission, that is what it is. */
  lemma EveryAttemptIsAccountedFor<B>(run: seq<Action<B>>, st: State<B>, n: nat)
    requires Reaches(run, st) && n < |st.history.attempts| && st.transmitter == None && n !in st.history.lost
    ensures (exists i :: 0 <= i < |st.output| && IsAttempt(st.history.attempts, st.output[i], n)) ||
            (exists i :: 0 <= i < |st.queue| && Carries(st.history.attempts, st.contents, st.queue[i], n))
  {
    hide Reaches, Owned, Exclusive, Counts, IsAttempt, Carries;
    ReachedHolds(run, st);
    var h := st.history;
    var k :| 0 <= k < |h.taken + h.waiting| && (h.taken + h.waiting)[k] == n;
    if k < |h.taken| {
      assert IsAttempt(h.attempts, st.output[k], n);
    } else {
      assert Carries(h.attempts, st.contents, st.queue[k - |h.taken|], n);
    }
  }

  lemma SequenceByte(a: Attempt)
    requires |a.request.payload| <= MAX_PAYLOAD_LENGTH
    ensures |FrameOf(a)| >= 8 && FrameOf(a)[2] == a.seqNo
  {
    hide CrcCcitt.Crc, CrcErrors.Checksum;
    FrameIsShaped(a.request.envelope.(seqNo := a.seqNo), a.request.payload);
  }

  // ----------------------------------------------------------------------------------------
  // End to end
  // ----------------------------------------------------------------------------------------

  /** Bit number uart of the mask. */
  predicate Selects(mask: byte, uart: nat) {
    if uart == 0 then mask % 2 == 1 else Selects(mask / 2, uart - 1)
  }

  const POWERS: seq<nat> := [1, 2, 4, 8, 16, 32, 64, 128]

  /** A mask selects a UART by one binary digit. */
  lemma {:induction false} SelectsOneBit(mask: byte, uart: nat)
    requires uart < 8
    ensures Selects(mask, uart) <==> mask / POWERS[uart] % 2 == 1
  {
    if uart > 0 {
      SelectsOneBit(mask / 2, uart - 1);
      HalfOfMask(mask, uart);
      hide POWERS;
    }
  }

  lemma HalfOfMask(mask: byte, uart: nat)
    requires 0 < uart < 8
    ensures mask / 2 / POWERS[uart - 1] == mask / POWERS[uart]
  {
    var q, r := mask / POWERS[uart], mask % POWERS[uart];
    assert POWERS[uart] == 2 * POWERS[uart - 1];
    QuotientIs(mask / 2, POWERS[uart - 1], q, r / 2);
  }

  /** The bytes that a UART has been given. */
  function Written(output: seq<(byte, seq<byte>)>, uart: nat): seq<byte> {
    if output == [] then []
    else (if Selects(output[0].0, uart) then output[0].1 else []) + Written(output[1..], uart)
  }

  /** The message of an attempt as a parser is to deliver it. */
  function PieceOf(a: Attempt): Parser.Piece {
    Parser.Piece([], a.request.envelope.(seqNo := a.seqNo), a.request.payload)
  }

  /** The messages, among the attempts listed, that go to a UART. */
  function Addressed(attempts: seq<Attempt>, ns: seq<nat>, uart: nat): seq<Parser.Piece>
    requires forall i :: 0 <= i < |ns| ==> ns[i] < |attempts|
  {
    if ns == [] then []
    else
      var a := attempts[ns[0]];
      (if Selects(a.request.targets, uart) then [PieceOf(a)] else []) + Addressed(attempts, ns[1..], uart)
  }

  lemma {:induction false} WrittenIsStream(attempts: seq<Attempt>, output: seq<(byte, seq<byte>)>, ns: seq<nat>,
                                           uart: nat)
    requires |output| == |ns| && forall i :: 0 <= i < |ns| ==> ns[i] < |attempts|
    requires forall i :: 0 <= i < |ns| ==> IsAttempt(attempts, output[i], ns[i])
    ensures IsStreamOf(Addressed(attempts, ns, uart), Written(output, uart))
    decreases |ns|
  {
    hide Selects, PieceOf, IsAttempt, IsStreamOf;
    if ns == [] {
      NothingIsStream();
    } else {
      WrittenIsStream(attempts, output[1..], ns[1..], uart);
      StreamGrows(attempts, ns[0], output[0], Addressed(attempts, ns[1..], uart), Written(output[1..], uart));
    }
  }

  ghost predicate IsStreamOf(ps: seq<Parser.Piece>, written: seq<byte>) {
    (forall i :: 0 <= i < |ps| ==> ps[i].Valid()) && written == Parser.Stream(ps, [])
  }

  lemma NothingIsStream()
    ensures IsStreamOf([], [])
  {
  }

  lemma StreamGrows(attempts: seq<Attempt>, n: nat, sent: (byte, seq<byte>), rest: seq<Parser.Piece>,
                    written: seq<byte>)
    requires IsAttempt(attempts, sent, n) && IsStreamOf(rest, written)
    ensures IsStreamOf([PieceOf(attempts[n])] + rest, sent.1 + written) && IsStreamOf([] + rest, [] + written)
    ensures sent.0 == attempts[n].request.targets
  {
    hide Frame;
    var p := PieceOf(attempts[n]);
    assert ([p] + rest)[1..] == rest && [] + rest == rest && [] + written == written;
    assert [] + (sent.1 + written) == sent.1 + written;
  }

  /**
   * A parser at the other end of a UART delivers the messages for that UART that have been written
   * so far, with their payloads, in the order in which they took their sequence numbers.
   */
  lemma OtherEndDelivers<B>(run: seq<Action<B>>, st: State<B>, uart: nat)
    requires Reaches(run, st)
    ensures |st.output| <= |st.history.taken|
    ensures forall i :: 0 <= i < |st.output| ==> st.history.taken[i] < |st.history.attempts|
    ensures var sent := Addressed(st.history.attempts, st.history.taken[..|st.output|], uart);
            var (view, frames) := Parser.Run(Parser.Idle, Written(st.output, uart));
            view == Parser.Idle && Parser.Deliveries(frames) == Parser.Expected(sent)
  {
    hide Reaches, Owned, Exclusive, QueueOrdered, Consistent, Counts, FrameOf, Written, Addressed;
    ReachedHolds(run, st);
    var ns := st.history.taken[..|st.output|];
    WrittenIsStream(st.history.attempts, st.output, ns, uart);
    assert IsStreamOf(Addressed(st.history.attempts, ns, uart), Written(st.output, uart));
    Parser.StreamIsDelivered(Addressed(st.history.attempts, ns, uart), []);
  }
}
