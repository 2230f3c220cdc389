/** Downloads from raw storage and from files, fragment by fragment, whatever the channel does. */
module Download {
  import opened Machine
  import opened Fragmentation

  const FRAGMENT_LENGTH: nat := 59

  datatype Kind = RawStorage | File

  datatype Fragment = Fragment(kind: Kind, seqNo: byte, maxIndex: byte, index: byte, data: seq<byte>)

  /** A download: what it reads next, how much is left, and the fragments accepted so far. */
  datatype Transfer = Transfer(
    kind: Kind, seqNo: byte, at: nat, left: uint16, index: byte, maxIndex: byte, sent: seq<Fragment>)

  /**
   * What becomes of an attempt to send a fragment: the read fails; or some bytes are read and the
   * queue refuses them, and then perhaps the file cannot be rewound; or the queue takes them. For
   * raw storage, a read that succeeds always yields as many bytes as were requested.
   */
  datatype Answer = ReadFails | Refused(n: nat) | Lost(n: nat) | Accepted(n: nat)

  /** The highest fragment index, in eight bits, announced for a download of the given length. */
  function MaxIndex(length: nat): byte {
    var q := WrapByte(length / FRAGMENT_LENGTH);
    if length > 0 && length % FRAGMENT_LENGTH == 0 then WrapByte(q - 1) else q
  }

  function Started(kind: Kind, seqNo: byte, at: nat, length: uint16): Transfer {
    Transfer(kind, seqNo, at, length, 0, MaxIndex(length), [])
  }

  function Cancelled(t: Transfer): Transfer {
    t.(left := 0)
  }

  function Requested(t: Transfer): nat {
    if t.left > FRAGMENT_LENGTH then FRAGMENT_LENGTH else t.left
  }

  function Got(t: Transfer, n: nat): nat {
    if t.kind == RawStorage || n > Requested(t) then Requested(t) else n
  }

  /** A file that ends early is noticed by a read that yields nothing. */
  function Noticed(t: Transfer, n: nat): Transfer {
    if Got(t, n) == 0 then t.(maxIndex := t.index) else t
  }

  function Range(contents: nat -> byte, from: nat, to: nat): (s: seq<byte>)
    requires from <= to
    ensures |s| == to - from
  {
    seq(to - from, i requires 0 <= i => contents(from + i))
  }

  function Attempt(contents: nat -> byte, t: Transfer, a: Answer): Transfer {
    if t.left == 0 then t
    else
      match a
      case ReadFails => if t.kind == RawStorage then t else Cancelled(t)
      case Refused(n) => Noticed(t, n)
      case Lost(n) => if t.kind == RawStorage then t else Cancelled(Noticed(t, n))
      case Accepted(n) =>
        var got := Got(t, n);
        var t' := Noticed(t, n);
        var f := Fragment(t.kind, t.seqNo, t'.maxIndex, t.index, Range(contents, t.at, t.at + got));
        if got == 0 then Cancelled(t'.(sent := t.sent + [f]))
        else t'.(at := t.at + got, left := t.left - got, index := WrapByte(t.index + 1), sent := t.sent + [f])
  }

  function After(contents: nat -> byte, t: Transfer, answers: seq<Answer>): Transfer {
    if answers == [] then t
    else Attempt(contents, After(contents, t, answers[..|answers| - 1]), answers[|answers| - 1])
  }

  function Datas(fs: seq<Fragment>): (ds: seq<seq<byte>>)
    ensures |ds| == |fs| && forall i :: 0 <= i < |fs| ==> ds[i] == fs[i].data
  {
    seq(|fs|, i requires 0 <= i < |fs| => fs[i].data)
  }

  // ----------------------------------------------------------------------------------------
  // Whatever happens
  // ----------------------------------------------------------------------------------------

  /** What was accepted is the beginning of the range, and the rest is still to come unless given up. */
  predicate InStep(contents: nat -> byte, t: Transfer, from: nat, length: nat) {
    && from <= t.at && t.at + t.left <= from + length && (t.left > 0 ==> t.at + t.left == from + length)
    && Concat(Datas(t.sent)) == Range(contents, from, t.at)
    && (t.left > 0 ==> t.index == WrapByte(|t.sent|))
    && forall i :: 0 <= i < |t.sent| ==> t.sent[i].index == WrapByte(i)
  }

  lemma RangeSplit(contents: nat -> byte, from: nat, mid: nat, to: nat)
    requires from <= mid <= to
    ensures Range(contents, from, mid) + Range(contents, mid, to) == Range(contents, from, to)
  {
  }

  lemma SendingStaysInStep(contents: nat -> byte, t: Transfer, f: Fragment, from: nat, length: nat, got: nat)
    requires InStep(contents, t, from, length) && got <= t.left && t.left > 0
    requires f.data == Range(contents, t.at, t.at + got) && f.index == t.index
    ensures Concat(Datas(t.sent + [f])) == Range(contents, from, t.at + got)
  {
    assert Datas(t.sent + [f]) == Datas(t.sent) + [f.data];
    ConcatAppend(Datas(t.sent), [f.data]);
    assert [f.data][1..] == [];
    assert Concat([f.data]) == f.data + [] == f.data;
    RangeSplit(contents, from, t.at, t.at + got);
  }

  lemma AttemptStaysInStep(contents: nat -> byte, t: Transfer, a: Answer, from: nat, length: nat)
    requires InStep(contents, t, from, length)
    ensures InStep(contents, Attempt(contents, t, a), from, length)
  {
    hide Concat, Datas, Range;
    if t.left > 0 && a.Accepted? {
      AcceptedStaysInStep(contents, t, a, from, length);
    }
  }

  lemma AcceptedStaysInStep(contents: nat -> byte, t: Transfer, a: Answer, from: nat, length: nat)
    requires InStep(contents, t, from, length) && t.left > 0 && a.Accepted?
    ensures InStep(contents, Attempt(contents, t, a), from, length)
  {
    WrapByteAdds(|t.sent|, 1);
    hide Concat, Datas, Range, WrapByte;
    var got := Got(t, a.n);
    var f := Fragment(t.kind, t.seqNo, Noticed(t, a.n).maxIndex, t.index, Range(contents, t.at, t.at + got));
    SendingStaysInStep(contents, t, f, from, length, got);
    var t' := Attempt(contents, t, a);
    assert t'.sent == t.sent + [f];
    forall i | 0 <= i < |t'.sent|
      ensures t'.sent[i].index == WrapByte(i)
    {
      if i < |t.sent| {
        assert t'.sent[i] == t.sent[i];
      }
    }
  }

  /**
   * Whatever the storage and the queue answer, the fragments accepted are the beginning of the
   * requested range: nothing is missing, repeated or out of order.
   */
  lemma {:induction false} DeliveredIsPrefix(contents: nat -> byte, kind: Kind, seqNo: byte, from: nat, length: uint16,
                                             answers: seq<Answer>)
    ensures var t := After(contents, Started(kind, seqNo, from, length), answers);
            InStep(contents, t, from, length)
  {
    hide Attempt, InStep;
    if answers == [] {
      NothingDelivered(contents, kind, seqNo, from, length);
    } else {
      DeliveredIsPrefix(contents, kind, seqNo, from, length, answers[..|answers| - 1]);
      var t := After(contents, Started(kind, seqNo, from, length), answers[..|answers| - 1]);
      AttemptStaysInStep(contents, t, answers[|answers| - 1], from, length);
    }
  }

  lemma NothingDelivered(contents: nat -> byte, kind: Kind, seqNo: byte, from: nat, length: uint16)
    ensures InStep(contents, Started(kind, seqNo, from, length), from, length)
  {
    assert Datas([]) == [];
  }

  // ----------------------------------------------------------------------------------------
  // What one answer does, and where a download ends
  // ----------------------------------------------------------------------------------------

  /** The bytes in all that the accepted reads have yielded. */
  function Amount(answers: seq<Answer>): nat {
    if answers == [] then 0
    else
      var last := answers[|answers| - 1];
      Amount(answers[..|answers| - 1]) + if last.Accepted? then last.n else 0
  }

  /** Some bytes were read, no more than are ever requested, and the queue took them or refused them. */
  predicate Yields(a: Answer) {
    (a.Refused? || a.Accepted?) && 0 < a.n <= FRAGMENT_LENGTH
  }

  /** An accepted read of a file moves the download by what was read, however little; a refused one does not. */
  lemma FileMovesByWhatIsRead(contents: nat -> byte, t: Transfer, n: nat)
    requires t.kind == File && 0 < n <= t.left && n <= FRAGMENT_LENGTH
    ensures Attempt(contents, t, Accepted(n)) ==
            t.(at := t.at + n, left := t.left - n, index := WrapByte(t.index + 1),
               sent := t.sent + [Fragment(File, t.seqNo, t.maxIndex, t.index, Range(contents, t.at, t.at + n))])
    ensures Attempt(contents, t, Refused(n)) == t
  {
    hide Range;
  }

  /** However small the pieces that the file yields, all of them are sent, each in its own fragment. */
  lemma {:induction false} ReadsAreSent(contents: nat -> byte, seqNo: byte, from: nat, length: uint16,
                                        answers: seq<Answer>)
    requires forall i :: 0 <= i < |answers| ==> Yields(answers[i])
    requires Amount(answers) <= length
    ensures var t := After(contents, Started(File, seqNo, from, length), answers);
            && t.kind == File && t.at == from + Amount(answers) && t.left == length - Amount(answers)
            && |t.sent| == AcceptedCount(answers) && t.maxIndex == MaxIndex(length)
            && forall i :: 0 <= i < |t.sent| ==> t.sent[i].maxIndex == MaxIndex(length)
  {
    hide Attempt, MaxIndex, WrapByte, Range;
    if answers != [] {
      var front, last := answers[..|answers| - 1], answers[|answers| - 1];
      ReadsAreSent(contents, seqNo, from, length, front);
      var t := After(contents, Started(File, seqNo, from, length), front);
      if t.left > 0 {
        YieldedIsSent(contents, t, last);
      } else {
        NothingLeft(contents, t, last);
      }
    }
  }

  lemma YieldedIsSent(contents: nat -> byte, t: Transfer, a: Answer)
    requires t.kind == File && t.left > 0 && Yields(a)
    requires a.Accepted? ==> a.n <= t.left
    ensures var t' := Attempt(contents, t, a);
            && t'.kind == File && t'.at == t.at + (if a.Accepted? then a.n else 0)
            && t'.at + t'.left == t.at + t.left && t'.maxIndex == t.maxIndex
            && |t'.sent| == |t.sent| + (if a.Accepted? then 1 else 0)
            && forall i :: 0 <= i < |t'.sent| ==>
                 t'.sent[i].maxIndex == if i < |t.sent| then t.sent[i].maxIndex else t.maxIndex
  {
    hide Range, WrapByte;
  }

  lemma NothingLeft(contents: nat -> byte, t: Transfer, a: Answer)
    requires t.left == 0
    ensures Attempt(contents, t, a) == t
  {
  }

  lemma {:induction false} EndedForGood(contents: nat -> byte, t: Transfer, answers: seq<Answer>)
    requires t.left == 0
    ensures After(contents, t, answers) == t
  {
    if answers != [] {
      EndedForGood(contents, t, answers[..|answers| - 1]);
    }
  }

  /** A file that cannot be read or rewound ends its download, and nothing more is ever sent. */
  lemma FailureEndsFile(contents: nat -> byte, t: Transfer, a: Answer, more: seq<Answer>)
    requires t.kind == File && (a.ReadFails? || a.Lost?)
    ensures var t' := After(contents, Attempt(contents, t, a), more);
            t'.left == 0 && t'.sent == t.sent
  {
    hide After;
    EndedForGood(contents, Attempt(contents, t, a), more);
  }

  /** Raw storage is never given up, and its fragments do not depend on what is said about their length. */
  lemma RawStorageGoesOn(contents: nat -> byte, t: Transfer, a: Answer)
    requires t.kind == RawStorage
    ensures !a.Accepted? ==> Attempt(contents, t, a) == t
    ensures a.Accepted? && t.left > 0 ==> Attempt(contents, t, a).left == if t.left > 59 then t.left - 59 else 0
  {
    hide Range;
  }

  /**
   * At an early end of the file its last fragment is empty and announces its own index as the
   * maximum; until that fragment is accepted the download goes on.
   */
  lemma EarlyEndIsAnnounced(contents: nat -> byte, t: Transfer)
    requires t.kind == File && t.left > 0
    ensures var t' := Attempt(contents, t, Accepted(0));
            t'.left == 0 && t'.sent == t.sent + [Fragment(File, t.seqNo, t.index, t.index, [])]
    ensures Attempt(contents, t, Refused(0)) == t.(maxIndex := t.index)
  {
    assert Range(contents, t.at, t.at) == [];
  }

  /** An empty fragment is the last one, and says so. */
  predicate EmptyEnds(t: Transfer) {
    forall i :: 0 <= i < |t.sent| && t.sent[i].data == [] ==>
      i == |t.sent| - 1 && t.left == 0 && t.sent[i].maxIndex == t.sent[i].index
  }

  lemma AttemptKeepsEmptyEnds(contents: nat -> byte, t: Transfer, a: Answer)
    requires EmptyEnds(t)
    ensures EmptyEnds(Attempt(contents, t, a))
  {
    hide Range, WrapByte;
  }

  lemma {:induction false} EmptyFragmentIsLast(contents: nat -> byte, kind: Kind, seqNo: byte, from: nat,
                                               length: uint16, answers: seq<Answer>)
    ensures EmptyEnds(After(contents, Started(kind, seqNo, from, length), answers))
  {
    hide Attempt, EmptyEnds, MaxIndex;
    if answers == [] {
      NoFragmentYet(kind, seqNo, from, length);
    } else {
      EmptyFragmentIsLast(contents, kind, seqNo, from, length, answers[..|answers| - 1]);
      AttemptKeepsEmptyEnds(contents, After(contents, Started(kind, seqNo, from, length), answers[..|answers| - 1]),
                            answers[|answers| - 1]);
    }
  }

  lemma NoFragmentYet(kind: Kind, seqNo: byte, from: nat, length: uint16)
    ensures EmptyEnds(Started(kind, seqNo, from, length))
  {
  }

  // ----------------------------------------------------------------------------------------
  // When every read yields what was requested
  // ----------------------------------------------------------------------------------------

  /** The answer yields all that is requested now, or nothing happens and the attempt will be repeated. */
  predicate Full(t: Transfer, a: Answer) {
    t.kind == RawStorage || t.left == 0 || ((a.Refused? || a.Accepted?) && a.n >= Requested(t))
  }

  /** Each answer yields all that is requested at its attempt. */
  predicate AllFull(contents: nat -> byte, start: Transfer, answers: seq<Answer>) {
    forall i :: 0 <= i < |answers| ==> Full(After(contents, start, answers[..i]), answers[i])
  }

  lemma AllFullSplit(contents: nat -> byte, start: Transfer, answers: seq<Answer>)
    requires AllFull(contents, start, answers) && answers != []
    ensures AllFull(contents, start, answers[..|answers| - 1])
    ensures Full(After(contents, start, answers[..|answers| - 1]), answers[|answers| - 1])
  {
    hide After, Full;
    var front := answers[..|answers| - 1];
    forall i | 0 <= i < |front|
      ensures Full(After(contents, start, front[..i]), front[i])
    {
      assert front[..i] == answers[..i];
    }
  }

  function AcceptedCount(answers: seq<Answer>): nat {
    if answers == [] then 0
    else AcceptedCount(answers[..|answers| - 1]) + if answers[|answers| - 1].Accepted? then 1 else 0
  }

  function Min(a: nat, b: nat): nat {
    if a <= b then a else b
  }

  /** Exactly k fragments of the range were accepted. */
  predicate Halfway(contents: nat -> byte, t: Transfer, kind: Kind, seqNo: byte, from: nat, length: nat, k: nat) {
    var fs := Fragments(Range(contents, from, from + length), FRAGMENT_LENGTH);
    && k == |t.sent| <= |fs| && t.kind == kind && t.seqNo == seqNo
    && t.at == from + (if k == |fs| then length else FRAGMENT_LENGTH * k) && t.at + t.left == from + length
    && t.index == WrapByte(k) && t.maxIndex == MaxIndex(length)
    && forall i :: 0 <= i < k ==> t.sent[i] == Fragment(kind, seqNo, MaxIndex(length), WrapByte(i), fs[i])
  }

  lemma AcceptingGoesOn(contents: nat -> byte, t: Transfer, a: Answer, from: nat, length: uint16, k: nat)
    requires Halfway(contents, t, t.kind, t.seqNo, from, length, k) && Full(t, a) && a.Accepted? && t.left > 0
    ensures Halfway(contents, Attempt(contents, t, a), t.kind, t.seqNo, from, length, k + 1)
  {
    NextFragment(contents, t, from, length, k);
    AcceptedInFull(contents, t, a);
    WrapByteAdds(k, 1);
    hide Fragments, MaxIndex, Range, Attempt, Requested, Full, WrapByte;
    var t' := Attempt(contents, t, a);
    forall i | 0 <= i < k + 1
      ensures t'.sent[i] == Fragment(t.kind, t.seqNo, MaxIndex(length), WrapByte(i),
                                     Fragments(Range(contents, from, from + length), FRAGMENT_LENGTH)[i])
    {
      if i < k {
        assert t'.sent[i] == t.sent[i];
      }
    }
  }

  lemma AcceptedInFull(contents: nat -> byte, t: Transfer, a: Answer)
    requires Full(t, a) && a.Accepted? && t.left > 0
    ensures 0 < Requested(t) <= t.left
    ensures Attempt(contents, t, a) ==
            t.(at := t.at + Requested(t), left := t.left - Requested(t), index := WrapByte(t.index + 1),
               sent := t.sent + [Fragment(t.kind, t.seqNo, t.maxIndex, t.index,
                                          Range(contents, t.at, t.at + Requested(t)))])
  {
    hide Range;
  }

  /** What is requested next is the next fragment of the range; it is shorter only at the end. */
  lemma NextFragment(contents: nat -> byte, t: Transfer, from: nat, length: uint16, k: nat)
    requires Halfway(contents, t, t.kind, t.seqNo, from, length, k) && t.left > 0
    ensures var fs := Fragments(Range(contents, from, from + length), FRAGMENT_LENGTH);
            && k < |fs| && fs[k] == Range(contents, t.at, t.at + Requested(t))
            && t.at + Requested(t) == from + (if k + 1 == |fs| then length else FRAGMENT_LENGTH * (k + 1))
  {
    hide Fragments, MaxIndex;
    var range := Range(contents, from, from + length);
    FragmentAt(range, FRAGMENT_LENGTH, k);
    var start, got := FRAGMENT_LENGTH * k, Requested(t);
    assert FragmentEnd(length, FRAGMENT_LENGTH, k) == start + got;
    assert range[start..start + got] == Range(contents, t.at, t.at + got);
  }

  lemma OtherwiseNothingHappens(contents: nat -> byte, t: Transfer, a: Answer)
    requires Full(t, a) && (!a.Accepted? || t.left == 0)
    ensures Attempt(contents, t, a) == t
  {
  }

  lemma DoneIffAllSent(contents: nat -> byte, t: Transfer, kind: Kind, seqNo: byte, from: nat, length: uint16, k: nat)
    requires Halfway(contents, t, kind, seqNo, from, length, k)
    ensures t.left == 0 <==> k == FragmentCount(length, FRAGMENT_LENGTH)
    ensures k <= FragmentCount(length, FRAGMENT_LENGTH)
    ensures t.kind == kind && t.seqNo == seqNo
  {
    var range := Range(contents, from, from + length);
    FragmentCountIs(range, FRAGMENT_LENGTH);
    if k < |Fragments(range, FRAGMENT_LENGTH)| {
      FragmentAt(range, FRAGMENT_LENGTH, k);
    }
  }

  lemma NothingSentYet(contents: nat -> byte, kind: Kind, seqNo: byte, from: nat, length: uint16)
    ensures Halfway(contents, Started(kind, seqNo, from, length), kind, seqNo, from, length, 0)
  {
  }

  /**
   * When each read yields what it requests, the accepted fragments are exactly the first fragments of the requested
   * range, one for each time the queue accepted one, until the range is exhausted; then they are all.
   */
  lemma {:induction false} DownloadIsExact(contents: nat -> byte, kind: Kind, seqNo: byte, from: nat, length: uint16,
                                           answers: seq<Answer>)
    requires AllFull(contents, Started(kind, seqNo, from, length), answers)
    ensures var t := After(contents, Started(kind, seqNo, from, length), answers);
            var count := FragmentCount(length, FRAGMENT_LENGTH);
            && Halfway(contents, t, kind, seqNo, from, length, Min(AcceptedCount(answers), count))
            && (t.left == 0 <==> AcceptedCount(answers) >= count)
  {
    hide Attempt, Halfway, Full, AllFull, FragmentCount;
    var start, count := Started(kind, seqNo, from, length), FragmentCount(length, FRAGMENT_LENGTH);
    if answers == [] {
      NothingSentYet(contents, kind, seqNo, from, length);
      DoneIffAllSent(contents, start, kind, seqNo, from, length, 0);
    } else {
      var front, last := answers[..|answers| - 1], answers[|answers| - 1];
      AllFullSplit(contents, start, answers);
      DownloadIsExact(contents, kind, seqNo, from, length, front);
      var t, k := After(contents, start, front), Min(AcceptedCount(front), count);
      DoneIffAllSent(contents, t, kind, seqNo, from, length, k);
      if last.Accepted? && t.left > 0 {
        AcceptingGoesOn(contents, t, last, from, length, k);
        DoneIffAllSent(contents, After(contents, start, answers), kind, seqNo, from, length, k + 1);
      } else {
        OtherwiseNothingHappens(contents, t, last);
      }
    }
  }

  /** A completed download has delivered the whole range. */
  lemma CompletedIsWhole(contents: nat -> byte, kind: Kind, seqNo: byte, from: nat, length: uint16,
                         answers: seq<Answer>)
    requires AllFull(contents, Started(kind, seqNo, from, length), answers)
    requires AcceptedCount(answers) >= FragmentCount(length, FRAGMENT_LENGTH)
    ensures var t := After(contents, Started(kind, seqNo, from, length), answers);
            && Concat(Datas(t.sent)) == Range(contents, from, from + length)
            && |t.sent| == FragmentCount(length, FRAGMENT_LENGTH)
  {
    DownloadIsExact(contents, kind, seqNo, from, length, answers);
    DeliveredIsPrefix(contents, kind, seqNo, from, length, answers);
    hide AllFull, Concat, Datas, Range, FragmentCount, Fragments;
    var t := After(contents, Started(kind, seqNo, from, length), answers);
    DoneIffAllSent(contents, t, kind, seqNo, from, length, |t.sent|);
  }

  /** The announced maximum is the index of the last fragment, in eight bits. */
  lemma MaxIndexIsLast(length: nat)
    requires length > 0
    ensures MaxIndex(length) == WrapByte(FragmentCount(length, FRAGMENT_LENGTH) - 1)
  {
    WrapByteAdds(length / FRAGMENT_LENGTH, -1);
    hide WrapByte;
  }

  /** Fragment indices identify the fragments if and only if the download is not too long. */
  lemma IndicesAreExact(length: nat)
    requires length > 0
    ensures var count := FragmentCount(length, FRAGMENT_LENGTH);
            && (MaxIndex(length) == count - 1 <==> length <= 15104)
            && ((forall i :: 0 <= i < count ==> WrapByte(i) == i) <==> length <= 15104)
  {
    var count := FragmentCount(length, FRAGMENT_LENGTH);
    MaxIndexIsLast(length);
    if length > 15104 {
      assert count > 256;
      assert WrapByte(256) != 256;
    }
  }

  /** A longer download repeats an index within one batch. */
  lemma LongDownloadRepeatsAnIndex()
    ensures FragmentCount(15105, FRAGMENT_LENGTH) == 257 && MaxIndex(15105) == 0
  {
  }

  lemma AfterSnoc(contents: nat -> byte, t: Transfer, answers: seq<Answer>, a: Answer)
    ensures After(contents, t, answers + [a]) == Attempt(contents, After(contents, t, answers), a)
  {
    assert (answers + [a])[..|answers|] == answers;
  }

  // ----------------------------------------------------------------------------------------
  // The operations
  // ----------------------------------------------------------------------------------------

  datatype Error = EBUSY | EINVAL | EIO | FilesystemError

  /** The answers to the first n attempts of a call. */
  function Taken(answers: nat -> Answer, n: nat): (s: seq<Answer>)
    ensures |s| == n
  {
    seq(n, i requires 0 <= i => answers(i))
  }

  lemma NoneTaken(answers: nat -> Answer, history: seq<Answer>)
    ensures history + Taken(answers, 0) == history
  {
  }

  lemma TakenGrows(answers: nat -> Answer, n: nat, history: seq<Answer>)
    ensures history + Taken(answers, n) + [answers(n)] == history + Taken(answers, n + 1)
  {
  }

  /** The index of the last fragment, computed in eight bits. */
  method LastIndex(length: uint16) returns (index: byte)
    ensures index == MaxIndex(length)
  {
    index := WrapByte(length / FRAGMENT_LENGTH);
    if length > 0 && length % FRAGMENT_LENGTH == 0 {
      index := WrapByte(index - 1);
    }
  }

  class RawStorageReadOperation {
    const contents: nat -> byte
    var address: nat
    var bytesLeft: uint16
    var seqNo: byte
    var fragmentIndex: byte
    var maxFragmentIndex: byte
    /** The fragments that the telemetry queue has accepted. */
    var sent: seq<Fragment>
    ghost var origin: Transfer
    ghost var history: seq<Answer>

    ghost function View(): Transfer
      reads this
    {
      Transfer(RawStorage, seqNo, address, bytesLeft, fragmentIndex, maxFragmentIndex, sent)
    }

    ghost predicate Valid()
      reads this
    {
      origin.kind == RawStorage && View() == After(contents, origin, history)
    }

    predicate Running()
      reads this
    {
      bytesLeft > 0
    }

    constructor (contents: nat -> byte)
      ensures Valid() && !Running() && this.contents == contents
    {
      this.contents := contents;
      address, bytesLeft, seqNo, fragmentIndex, maxFragmentIndex, sent := 0, 0, 0, 0, 0, [];
      origin, history := Transfer(RawStorage, 0, 0, 0, 0, 0, []), [];
    }

    method Start(address: nat, length: uint16, seqNo: byte) returns (error: Option<Error>)
      requires Valid()
      modifies this
      ensures Valid()
      ensures error == if old(Running()) then Some(EBUSY) else if length == 0 then Some(EINVAL) else None
      ensures error.Some? ==> unchanged(this)
      ensures error == None ==> View() == origin == Started(RawStorage, seqNo, address, length) && history == []
    {
      hide MaxIndex, Attempt;
      if Running() {
        return Some(EBUSY);
      }
      if length == 0 {
        return Some(EINVAL);
      }
      this.address, bytesLeft, this.seqNo, fragmentIndex, sent := address, length, seqNo, 0, [];
      maxFragmentIndex := LastIndex(length);
      origin, history := View(), [];
      return None;
    }

    /** Sends fragments until the download is complete or something gets in the way. */
    method Iterate(available: bool, answers: nat -> Answer) returns (error: Option<Error>, n: nat)
      requires Valid()
      modifies this
      ensures Valid() && origin == old(origin) && history == old(history) + Taken(answers, n)
      ensures error == if available then None else Some(EIO)
      ensures !available ==> unchanged(this) && n == 0
      ensures available && Running() ==> n > 0 && !answers(n - 1).Accepted?
    {
      hide After, Attempt, Taken;
      n := 0;
      NoneTaken(answers, history);
      if !available {
        return Some(EIO), 0;
      }
      while Running()
        invariant Valid() && origin == old(origin) && history == old(history) + Taken(answers, n)
        decreases bytesLeft
      {
        TakenGrows(answers, n, old(history));
        var goesOn := SendFragment(answers(n));
        n := n + 1;
        if !goesOn {
          break;
        }
      }
      return None, n;
    }

    /** One round of the loop; false if it is the last one for now. */
    method SendFragment(answer: Answer) returns (goesOn: bool)
      requires Valid() && Running()
      modifies this
      ensures Valid() && origin == old(origin) && history == old(history) + [answer]
      ensures goesOn == answer.Accepted? && (goesOn ==> bytesLeft < old(bytesLeft))
    {
      hide After, Range, MaxIndex;
      AfterSnoc(contents, origin, history, answer);
      history := history + [answer];
      var dataLength := if bytesLeft > FRAGMENT_LENGTH then FRAGMENT_LENGTH else bytesLeft;
      if answer.ReadFails? {
        return false;
      }
      var data := Range(contents, address, address + dataLength);
      if !answer.Accepted? {
        return false;
      }
      sent := sent + [Fragment(RawStorage, seqNo, maxFragmentIndex, fragmentIndex, data)];
      address, bytesLeft := address + dataLength, bytesLeft - dataLength;
      fragmentIndex := WrapByte(fragmentIndex + 1);
      return true;
    }

    method Cancel()
      requires Valid()
      modifies this
      ensures Valid() && !Running() && View() == Cancelled(old(View()))
    {
      bytesLeft := 0;
      origin, history := View(), [];
    }
  }

  class FileDownloadOperation {
    const contents: nat -> byte
    /** The position of the open file. */
    var file: Option<nat>
    var bytesLeft: uint16
    var seqNo: byte
    var fragmentIndex: byte
    var maxFragmentIndex: byte
    /** The fragments that the telemetry queue has accepted. */
    var sent: seq<Fragment>
    ghost var at: nat
    ghost var origin: Transfer
    ghost var history: seq<Answer>

    ghost function View(): Transfer
      reads this
    {
      Transfer(File, seqNo, at, bytesLeft, fragmentIndex, maxFragmentIndex, sent)
    }

    ghost predicate Valid()
      reads this
    {
      && origin.kind == File && View() == After(contents, origin, history)
      && (Running() ==> file == Some(at))
    }

    predicate Running()
      reads this
    {
      bytesLeft > 0
    }

    constructor (contents: nat -> byte)
      ensures Valid() && !Running() && this.contents == contents
    {
      this.contents := contents;
      file, bytesLeft, seqNo, fragmentIndex, maxFragmentIndex, sent, at := None, 0, 0, 0, 0, [], 0;
      origin, history := Transfer(File, 0, 0, 0, 0, 0, []), [];
    }

    /** Opens a file of the given size, unless the filesystem objects, and prepares to send part of it. */
    method Start(available: bool, opens: bool, seeksTo: Option<nat>, sizeKnown: bool, size: uint32,
                 offset: uint32, length: uint16, seqNo: byte) returns (error: Option<Error>)
      requires Valid()
      modifies this
      ensures Valid()
      ensures error ==
              if old(Running()) then Some(EBUSY) else if length == 0 then Some(EINVAL)
              else if !available then Some(EIO) else if !opens || seeksTo == None then Some(FilesystemError)
              else if seeksTo.value != offset then Some(EIO) else if !sizeKnown then Some(FilesystemError) else None
      ensures error.Some? ==> View() == old(View())
      ensures error == None ==>
                && history == [] && View() == origin
                && View() == Started(File, seqNo, offset, if size <= offset then 0 else Min(size - offset, length))
                && file == Some(offset)
    {
      hide MaxIndex, Attempt;
      if Running() {
        return Some(EBUSY);
      }
      if length == 0 {
        return Some(EINVAL);
      }
      if !available {
        return Some(EIO);
      }
      if !opens {
        return Some(FilesystemError);
      }
      file := Some(0);
      if seeksTo == None {
        return Some(FilesystemError);
      }
      file := seeksTo;
      if seeksTo.value != offset {
        return Some(EIO);
      }
      if !sizeKnown {
        return Some(FilesystemError);
      }
      var n := length;
      if size <= offset {
        n := 0;
      } else if size - offset < n {
        n := size - offset;
      }
      Prepare(offset, n, seqNo);
      return None;
    }

    method Prepare(offset: nat, length: uint16, seqNo: byte)
      modifies this`at, this`bytesLeft, this`seqNo, this`fragmentIndex, this`maxFragmentIndex, this`sent,
               this`origin, this`history
      ensures View() == origin == Started(File, seqNo, offset, length) && history == []
    {
      at, bytesLeft, this.seqNo, fragmentIndex, sent := offset, length, seqNo, 0, [];
      maxFragmentIndex := LastIndex(length);
      origin, history := View(), [];
    }

    /** Sends fragments until the download is complete or something gets in the way. */
    method Iterate(tells: bool, answers: nat -> Answer) returns (error: Option<Error>, n: nat)
      requires Valid() && file.Some?
      modifies this
      ensures Valid() && error == if tells then None else Some(FilesystemError)
      ensures !tells ==> View() == Cancelled(old(View()))
      ensures tells ==> origin == old(origin) && history == old(history) + Taken(answers, n)
      ensures tells && Running() ==> n > 0 && answers(n - 1).Refused?
    {
      hide After, Attempt, Taken;
      n := 0;
      NoneTaken(answers, history);
      if !tells {
        Cancel();
        return Some(FilesystemError), 0;
      }
      var pos := file.value;
      while Running()
        invariant Valid() && (Running() ==> pos == at)
        invariant origin == old(origin) && history == old(history) + Taken(answers, n)
        decreases bytesLeft
      {
        TakenGrows(answers, n, old(history));
        var goesOn;
        goesOn, pos := SendFragment(answers(n), pos);
        n := n + 1;
        if !goesOn {
          break;
        }
      }
      return None, n;
    }

    /** One round of the loop; false if it is the last one for now. */
    method SendFragment(answer: Answer, pos: nat) returns (goesOn: bool, pos': nat)
      requires Valid() && Running() && pos == at
      modifies this
      ensures Valid() && origin == old(origin) && history == old(history) + [answer]
      ensures goesOn ==> bytesLeft < old(bytesLeft) && pos' == at
      ensures !goesOn && Running() ==> answer.Refused?
    {
      hide After, Range, MaxIndex, Requested, Started, WrapByte;
      AfterSnoc(contents, origin, history, answer);
      history, pos' := history + [answer], pos;
      if answer.ReadFails? {
        Close();
        return false, pos;
      }
      var data, dataLength := Read(answer.n);
      if !answer.Accepted? {
        if answer.Lost? {
          Close();
        } else {
          file := Some(pos);
        }
        return false, pos;
      }
      sent := sent + [Fragment(File, seqNo, maxFragmentIndex, fragmentIndex, data)];
      if dataLength == 0 {
        Close();
        return false, pos;
      }
      bytesLeft, pos', at := bytesLeft - dataLength, pos + dataLength, at + dataLength;
      fragmentIndex := WrapByte(fragmentIndex + 1);
      return true, pos';
    }

    /** Reads as many of the requested bytes as it gets; without any, the file ends here. */
    method Read(n: nat) returns (data: seq<byte>, dataLength: nat)
      requires Running() && file == Some(at)
      modifies this`file, this`maxFragmentIndex
      ensures dataLength == Got(old(View()), n) && data == Range(contents, at, at + dataLength)
      ensures file == Some(at + dataLength) && View() == Noticed(old(View()), n)
    {
      var requested := if bytesLeft > FRAGMENT_LENGTH then FRAGMENT_LENGTH else bytesLeft;
      dataLength := if n > requested then requested else n;
      data := Range(contents, file.value, file.value + dataLength);
      file := Some(file.value + dataLength);
      if dataLength == 0 {
        maxFragmentIndex := fragmentIndex;
      }
    }

    method Close()
      modifies this`file, this`bytesLeft
      ensures file == None && bytesLeft == 0
    {
      file, bytesLeft := None, 0;
    }

    method Cancel()
      requires Valid()
      modifies this
      ensures Valid() && !Running() && file == None && View() == Cancelled(old(View()))
    {
      Close();
      origin, history := View(), [];
    }
  }
}
