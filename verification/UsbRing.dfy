/** The receive buffer of the USB serial port: a ring of 256 slots, one of which always stays free. */
module UsbRing {
  import opened Machine

  const SIZE: nat := 256
  const CAPACITY: nat := 255

  // ----------------------------------------------------------------------------------------
  // The queue that the ring stands for
  // ----------------------------------------------------------------------------------------

  /** The bytes received and not read yet, and whether the endpoint is ready for another packet. */
  datatype State = State(unread: seq<byte>, armed: bool)

  /** The host configures the device, a packet is sent to it, a byte is read, or all bytes are dropped. */
  datatype Event = Configure | Packet(data: seq<byte>) | Pop | Flush

  predicate Fits(st: State, data: seq<byte>) {
    |st.unread| + |data| <= CAPACITY
  }

  /** A packet that arrives is taken as a whole or not at all; only a taken one makes the endpoint ready again. */
  function Arrived(st: State, data: seq<byte>): State {
    if Fits(st, data) then State(st.unread + data, true) else st.(armed := false)
  }

  function Step(st: State, e: Event): State {
    match e
    case Configure => st.(armed := true)
    case Packet(data) => if st.armed then Arrived(st, data) else st
    case Pop => if st.unread == [] then st else st.(unread := st.unread[1..])
    case Flush => st.(unread := [])
  }

  function After(st: State, run: seq<Event>): State {
    if run == [] then st else Step(After(st, run[..|run| - 1]), run[|run| - 1])
  }

  /** The bytes that an event takes out. */
  function TakenBy(st: State, e: Event): seq<byte> {
    if e.Flush? then st.unread else if e.Pop? && st.unread != [] then [st.unread[0]] else []
  }

  /** The bytes that an event brings in. */
  function BroughtBy(st: State, e: Event): seq<byte> {
    if e.Packet? && st.armed && Fits(st, e.data) then e.data else []
  }

  /** The bytes taken out in a run; without a flush, these are the bytes read. */
  function Popped(st: State, run: seq<Event>): seq<byte> {
    if run == [] then []
    else
      var front, last := run[..|run| - 1], run[|run| - 1];
      Popped(st, front) + TakenBy(After(st, front), last)
  }

  /** The bytes of the packets accepted in a run. */
  function Accepted(st: State, run: seq<Event>): seq<byte> {
    if run == [] then []
    else
      var front, last := run[..|run| - 1], run[|run| - 1];
      Accepted(st, front) + BroughtBy(After(st, front), last)
  }

  lemma StepKeepsBytes(st: State, e: Event)
    ensures TakenBy(st, e) + Step(st, e).unread == st.unread + BroughtBy(st, e)
  {
    hide Fits;
    assert [] + st.unread == st.unread + [] == st.unread;
    if e.Pop? && st.unread != [] {
      assert [st.unread[0]] + st.unread[1..] == st.unread;
    }
  }

  lemma Regroup(popped: seq<byte>, taken: seq<byte>, after: seq<byte>, before: seq<byte>, brought: seq<byte>,
                first: seq<byte>, accepted: seq<byte>)
    requires taken + after == before + brought && popped + before == first + accepted
    ensures (popped + taken) + after == first + (accepted + brought)
  {
    assert (popped + taken) + after == popped + (taken + after);
    assert popped + (before + brought) == (popped + before) + brought;
    assert (first + accepted) + brought == first + (accepted + brought);
  }

  /**
   * However packets, reads and flushes interleave, the bytes taken out, followed by those still
   * waiting, are those that were waiting at first, followed by those of the accepted packets, in order.
   */
  lemma {:induction false} NothingIsLost(st: State, run: seq<Event>)
    ensures Popped(st, run) + After(st, run).unread == st.unread + Accepted(st, run)
  {
    hide Step, TakenBy, BroughtBy;
    if run == [] {
      assert [] + st.unread == st.unread + [];
    } else {
      var front, last := run[..|run| - 1], run[|run| - 1];
      var before := After(st, front);
      NothingIsLost(st, front);
      StepKeepsBytes(before, last);
      Regroup(Popped(st, front), TakenBy(before, last), After(st, run).unread, before.unread,
              BroughtBy(before, last), st.unread, Accepted(st, front));
    }
  }

  function PopCount(run: seq<Event>): nat {
    if run == [] then 0 else PopCount(run[..|run| - 1]) + if run[|run| - 1].Pop? then 1 else 0
  }

  /** A reader that is interrupted by packets still gets the bytes that were waiting when it began. */
  lemma {:induction false} InterruptedRead(st: State, run: seq<Event>)
    requires PopCount(run) <= |st.unread| && forall k :: 0 <= k < |run| ==> !run[k].Flush?
    ensures Popped(st, run) == st.unread[..PopCount(run)] && st.unread[PopCount(run)..] <= After(st, run).unread
  {
    hide Step, TakenBy;
    if run != [] {
      var front, last := run[..|run| - 1], run[|run| - 1];
      InterruptedRead(st, front);
      ReadStep(st.unread, PopCount(front), After(st, front), last);
    }
  }

  lemma ReadStep(first: seq<byte>, n: nat, st: State, e: Event)
    requires n <= |first| && first[n..] <= st.unread && !e.Flush?
    requires e.Pop? ==> n < |first|
    ensures var m := if e.Pop? then n + 1 else n;
            first[..n] + TakenBy(st, e) == first[..m] && first[m..] <= Step(st, e).unread
  {
    var rest := first[n..];
    if e.Pop? {
      assert st.unread[0] == rest[0] == first[n];
      assert rest[1..] == first[n + 1..];
    }
  }

  predicate Unconfigured(run: seq<Event>) {
    forall k :: 0 <= k < |run| ==> !run[k].Configure?
  }

  /** The device was made ready just before the p-th event: by the host, or from the start. */
  predicate MadeReady(st: State, run: seq<Event>, p: nat)
    requires p <= |run|
  {
    if p == 0 then st.armed else run[p - 1].Configure?
  }

  /** Every packet from the p-th event on fits when it arrives. */
  predicate FitSince(st: State, run: seq<Event>, p: nat) {
    forall k :: p <= k < |run| && run[k].Packet? ==> Fits(After(st, run[..k]), run[k].data)
  }

  lemma FitSinceSplit(st: State, run: seq<Event>, p: nat)
    requires run != [] && p < |run|
    ensures var front, last := run[..|run| - 1], run[|run| - 1];
            FitSince(st, run, p) <==>
            FitSince(st, front, p) && (last.Packet? ==> Fits(After(st, front), last.data))
  {
    hide Fits, After;
    var front := run[..|run| - 1];
    assert forall k :: 0 <= k < |front| ==> run[..k] == front[..k] && run[k] == front[k];
  }

  lemma ReadyAfterStep(st: State, e: Event)
    ensures Step(st, e).armed <==> e.Configure? || (st.armed && (e.Packet? ==> Fits(st, e.data)))
  {
  }

  /** The device is ready if and only if every packet fitted on arrival since it was last made ready. */
  lemma {:induction false} ReadyIff(st: State, run: seq<Event>)
    ensures After(st, run).armed <==> exists p :: 0 <= p <= |run| && MadeReady(st, run, p) && FitSince(st, run, p)
  {
    hide Step, Fits, FitSince, After;
    if run == [] {
      NoEvents(st);
    } else {
      var front, last := run[..|run| - 1], run[|run| - 1];
      ReadyIff(st, front);
      NextEvent(st, run);
      ReadyAfterStep(After(st, front), last);
      forall p | 0 <= p < |run|
        ensures MadeReady(st, run, p) == MadeReady(st, front, p)
        ensures FitSince(st, run, p) <==>
                FitSince(st, front, p) && (last.Packet? ==> Fits(After(st, front), last.data))
      {
        FitSinceSplit(st, run, p);
      }
      NothingSince(st, run);
    }
  }

  lemma NoEvents(st: State)
    ensures After(st, []) == st && FitSince(st, [], 0)
  {
  }

  lemma NextEvent(st: State, run: seq<Event>)
    requires run != []
    ensures After(st, run) == Step(After(st, run[..|run| - 1]), run[|run| - 1])
  {
  }

  lemma NothingSince(st: State, run: seq<Event>)
    ensures FitSince(st, run, |run|)
  {
  }

  /** Whatever happened before, a device that is configured is ready, and it keeps what was not read. */
  lemma ConfiguredIsReady(st: State, run: seq<Event>)
    ensures var t := After(st, run + [Configure]);
            t.armed && t.unread == After(st, run).unread
  {
    assert (run + [Configure])[..|run|] == run;
  }

  /** After one packet that does not fit, nothing is accepted any more, however much is read. */
  lemma {:induction false} RejectionIsFinal(st: State, run: seq<Event>)
    requires !st.armed && Unconfigured(run)
    ensures !After(st, run).armed && Accepted(st, run) == []
  {
    if run != [] {
      RejectionIsFinal(st, run[..|run| - 1]);
    }
  }

  /** An example: the byte after a packet that does not fit is not accepted, although everything was dropped before. */
  lemma RejectionExample()
    ensures var full: seq<byte> := seq(255, _ => 0);
            var run := [Packet(full), Packet([1]), Flush, Packet([2])];
            Accepted(State([], true), run) == full && After(State([], true), run) == State([], false)
  {
    var full: seq<byte> := seq(255, _ => 0);
    var start := State([], true);
    var run := [Packet(full), Packet([1]), Flush, Packet([2])];
    assert run[..3][..2][..1][..0] == [] && run[..3][..2][..1][0] == Packet(full);
    assert [] + full == full;
    assert After(start, run[..3][..2][..1]) == State(full, true);
    assert run[..3][..2][1] == Packet([1]) && run[..3][2] == Flush;
    assert After(start, run[..3][..2]) == State(full, false);
    assert After(start, run[..3]) == State([], false);
    assert Accepted(start, run[..3][..2][..1]) == full;
    assert Accepted(start, run[..3]) == full;
  }

  // ----------------------------------------------------------------------------------------
  // The ring
  // ----------------------------------------------------------------------------------------

  /** The slot k places after another one. */
  function Slot(from: nat, k: nat): (slot: nat)
    requires from < SIZE && k < SIZE
    ensures slot < SIZE && slot == (from + k) % SIZE
  {
    if from + k < SIZE then from + k else from + k - SIZE
  }

  function Next(slot: nat): (next: nat)
    ensures next < SIZE
  {
    (slot + 1) % SIZE
  }

  /** The n bytes from a slot on. */
  function Window(ring: seq<byte>, from: nat, n: nat): (s: seq<byte>)
    requires |ring| == SIZE && from < SIZE && n < SIZE
    ensures |s| == n && forall i :: 0 <= i < n ==> s[i] == ring[Slot(from, i)]
  {
    seq(n, i requires 0 <= i < n => ring[Slot(from, i)])
  }

  /** How many slots there are from one position to another. */
  function Distance(head: uint16, tail: uint16): (n: nat)
    ensures n < SIZE
  {
    (head - tail) % 0x1_0000 % SIZE
  }

  lemma DistanceIs(from: nat, n: nat)
    requires from < SIZE && n < SIZE
    ensures Distance(Slot(from, n), from) == n
  {
  }

  lemma SlotAtDistance(head: uint16, tail: uint16)
    requires head < SIZE && tail < SIZE
    ensures Slot(tail, Distance(head, tail)) == head
  {
  }

  class Ring {
    const rxBuffer: array<byte>
    var head: uint16
    var tail: uint16
    /** Whether the endpoint has been prepared for another packet. */
    var armed: bool

    ghost predicate Valid()
      reads this
    {
      rxBuffer.Length == SIZE && head < SIZE && tail < SIZE
    }

    function Available(): nat
      reads this
    {
      Distance(head, tail)
    }

    /** The bytes received and not read yet, oldest first. */
    ghost function Unread(): seq<byte>
      reads this, rxBuffer
      requires Valid()
    {
      Window(rxBuffer[..], tail, Available())
    }

    ghost function View(): State
      reads this, rxBuffer
      requires Valid()
    {
      State(Unread(), armed)
    }

    constructor ()
      ensures Valid() && fresh(rxBuffer) && View() == State([], false)
    {
      rxBuffer := new byte[SIZE];
      head, tail, armed := 0, 0, false;
    }

    /** The host configures the device, which prepares the endpoint. */
    method Init()
      requires Valid()
      modifies this`armed
      ensures Valid() && View() == Step(old(View()), Configure)
      ensures armed && Unread() == old(Unread())
    {
      armed := true;
    }

    /** A packet arrives; it is stored as a whole or not at all. */
    method Receive(buf: array<byte>, length: uint32) returns (ok: bool)
      requires Valid() && buf != rxBuffer && length % 0x100 <= buf.Length
      modifies this, rxBuffer
      ensures Valid() && tail == old(tail)
      ensures View() == Arrived(old(View()), buf[..length % 0x100])
      ensures ok == armed == (old(Available()) + length % 0x100 <= CAPACITY)
      ensures Unread() == if ok then old(Unread()) + buf[..length % 0x100] else old(Unread())
    {
      hide Distance, Slot, Window;
      var len := length % 0x100;
      ghost var was := Unread();
      armed := false;
      var fits, tempHead := Store(buf, len);
      if !fits {
        return false;
      }
      DistanceIs(tail, |was| + len);
      head, armed := tempHead, true;
      return true;
    }

    /** Writes a packet behind the unread bytes; fails if it would run into the first of them. */
    method Store(buf: array<byte>, len: nat) returns (fits: bool, tempHead: uint16)
      requires Valid() && buf != rxBuffer && len <= buf.Length
      modifies rxBuffer
      ensures Unread() == old(Unread())
      ensures fits == (Available() + len <= CAPACITY)
      ensures fits ==> tempHead == Slot(tail, Available() + len)
      ensures fits ==> Window(rxBuffer[..], tail, Available() + len) == old(Unread()) + buf[..len]
    {
      hide Distance, Slot, Next, Window;
      ghost var n, was, data := Available(), Unread(), buf[..];
      tempHead := head;
      SlotAtDistance(head, tail);
      AddNothing(was);
      for i := 0 to len
        invariant n + i <= CAPACITY && tempHead == Slot(tail, n + i) && Unread() == was
        invariant Window(rxBuffer[..], tail, n + i) == was + data[..i]
      {
        AddNext(was, data, i);
        tempHead := StoreByte(n + i, tempHead, buf[i]);
        if tempHead == tail {
          return false, tempHead;
        }
      }
      return true, tempHead;
    }

    /** One round of the loop: writes the m-th slot from the tail on. */
    method StoreByte(ghost m: nat, slot: uint16, x: byte) returns (next: uint16)
      requires Valid() && Available() <= m < SIZE && slot == Slot(tail, m)
      modifies rxBuffer
      ensures Unread() == old(Unread()) && (next == tail <==> m == CAPACITY)
      ensures m < CAPACITY ==>
                next == Slot(tail, m + 1) &&
                Window(rxBuffer[..], tail, m + 1) == old(Window(rxBuffer[..], tail, m)) + [x]
    {
      hide Distance, Slot, Next, Window;
      ghost var ring := rxBuffer[..];
      rxBuffer[slot] := x;
      assert rxBuffer[..] == ring[slot := x];
      WindowWrite(ring, tail, Available(), m, x);
      SlotFollows(tail, m);
      next := Next(slot);
    }

    /** Takes the given number of bytes out, or none if there are not so many. */
    method Read(buf: array<byte>, length: uint16) returns (ok: bool)
      requires Valid() && buf != rxBuffer && length <= buf.Length
      modifies this`tail, buf
      ensures Valid() && head == old(head) && armed == old(armed)
      ensures ok == (length <= old(Available()))
      ensures ok ==> buf[..length] == old(Unread())[..length] && Unread() == old(Unread())[length..]
      ensures !ok ==> Unread() == old(Unread()) && buf[..] == old(buf[..])
      ensures buf[length..] == old(buf[length..])
    {
      hide Distance, Slot;
      var bytesAvailable := Available();
      if bytesAvailable < length {
        return false;
      }
      ghost var from := tail;
      for i := 0 to length
        invariant Valid() && head == old(head) && tail == Slot(from, i)
        invariant forall k :: 0 <= k < i ==> buf[k] == rxBuffer[Slot(from, k)]
        invariant buf[length..] == old(buf[length..])
      {
        buf[i] := rxBuffer[tail];
        SlotFollows(from, i);
        tail := Next(tail);
      }
      WindowDrops(rxBuffer[..], head, from, length);
      return true;
    }

    /** Looks at the given number of bytes without taking them out. */
    method Peek(buf: array<byte>, length: uint16) returns (ok: bool)
      requires Valid() && buf != rxBuffer && length <= buf.Length
      modifies buf
      ensures Valid() && Unread() == old(Unread())
      ensures ok == (length <= Available())
      ensures ok ==> buf[..length] == Unread()[..length]
      ensures !ok ==> buf[..] == old(buf[..])
      ensures buf[length..] == old(buf[length..])
    {
      if Available() < length {
        return false;
      }
      for i := 0 to length
        invariant forall k :: 0 <= k < i ==> buf[k] == rxBuffer[Slot(tail, k)]
        invariant buf[length..] == old(buf[length..])
      {
        buf[i] := rxBuffer[(tail + i) % SIZE];
      }
      return true;
    }

    method Flush()
      requires Valid()
      modifies this, rxBuffer
      ensures Valid() && View() == Step(old(View()), Event.Flush)
      ensures Unread() == [] && armed == old(armed)
    {
      for i := 0 to SIZE
        invariant armed == old(armed)
      {
        rxBuffer[i] := 0;
      }
      head, tail := 0, 0;
    }
  }

  /** Slots at different distances are different. */
  lemma SlotsDiffer(from: nat, n: nat)
    requires from < SIZE && n < SIZE
    ensures forall k :: 0 <= k < n ==> Slot(from, k) != Slot(from, n)
  {
  }

  /** The next slot; from the last one it leads back to the first. */
  lemma SlotFollows(from: nat, n: nat)
    requires from < SIZE && n < SIZE
    ensures n < CAPACITY ==> Next(Slot(from, n)) == Slot(from, n + 1)
    ensures Next(Slot(from, n)) == from <==> n == CAPACITY
    ensures Slot(from, 0) == from
  {
  }

  /** Writing the next slot adds a byte to the window, and leaves shorter windows alone. */
  lemma WindowWrite(ring: seq<byte>, from: nat, n: nat, m: nat, x: byte)
    requires |ring| == SIZE && from < SIZE && n <= m < SIZE
    ensures var ring' := ring[Slot(from, m) := x];
            && Window(ring', from, n) == Window(ring, from, n)
            && (m < CAPACITY ==> Window(ring', from, m + 1) == Window(ring, from, m) + [x])
  {
    hide Slot;
    SlotsDiffer(from, m);
  }

  lemma WindowDrops(ring: seq<byte>, head: uint16, tail: uint16, n: nat)
    requires |ring| == SIZE && head < SIZE && tail < SIZE && n <= Distance(head, tail)
    ensures var m := Slot(tail, n);
            Window(ring, m, Distance(head, m)) == Window(ring, tail, Distance(head, tail))[n..]
  {
    DistanceShrinks(head, tail, n);
    var m := Slot(tail, n);
    var rest := Window(ring, tail, Distance(head, tail))[n..];
    forall k | 0 <= k < |rest|
      ensures Window(ring, m, Distance(head, m))[k] == rest[k]
    {
      SlotsAdd(tail, n, k);
    }
  }

  lemma DistanceShrinks(head: uint16, tail: uint16, n: nat)
    requires head < SIZE && tail < SIZE && n <= Distance(head, tail)
    ensures Distance(head, Slot(tail, n)) == Distance(head, tail) - n
  {
    hide Distance, Slot;
    var d := Distance(head, tail);
    SlotAtDistance(head, tail);
    SlotsAdd(tail, n, d - n);
    DistanceIs(Slot(tail, n), d - n);
  }

  lemma SlotsAdd(from: nat, n: nat, k: nat)
    requires from < SIZE && n + k < SIZE
    ensures Slot(Slot(from, n), k) == Slot(from, n + k)
  {
  }
}
