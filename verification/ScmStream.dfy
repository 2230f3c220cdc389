/**
 * Whole streams through the receiver of the scintillator module: from any state, the bytes of a
 * sequence of histograms lead to exactly the frames that carry those histograms.
 */
module ScmStream {
  import opened Machine
  import opened Varuint
  import opened Histogram
  import opened Fragmentation
  import opened Scm
  import VaruintDecoder

  /** A byte and the time at which it is processed. */
  datatype Input = Input(ch: byte, now: uint32)

  function Bytes(ins: seq<Input>): (s: seq<byte>)
    ensures |s| == |ins|
  {
    seq(|ins|, i requires 0 <= i < |ins| => ins[i].ch)
  }

  /** The state after some inputs, and the frames sent meanwhile. */
  function Run(st: State, ins: seq<Input>): (r: (State, seq<Frame>))
    requires st.Valid()
    ensures r.0.Valid()
  {
    if ins == [] then (st, [])
    else
      var (st1, sent1) := Run(st, ins[..|ins| - 1]);
      var last := ins[|ins| - 1];
      StepIsValid(st1, last.ch, last.now);
      var (st2, sent2) := Step(st1, last.ch, last.now);
      (st2, sent1 + sent2)
  }

  lemma {:induction false} RunConcat(st: State, a: seq<Input>, b: seq<Input>)
    requires st.Valid()
    ensures Run(st, a + b) == (Run(Run(st, a).0, b).0, Run(st, a).1 + Run(Run(st, a).0, b).1)
  {
    hide Step;
    if b == [] {
      assert a + b == a;
      assert Run(st, a).1 + [] == Run(st, a).1;
    } else {
      var front, last := b[..|b| - 1], b[|b| - 1];
      assert (a + b)[..|a + b| - 1] == a + front;
      RunConcat(st, a, front);
      var mid := Run(st, a);
      RunSnoc(mid.0, b);
      RunSnoc(st, a + b);
      var sent2 := Step(Run(mid.0, front).0, last.ch, last.now).1;
      assert (mid.1 + Run(mid.0, front).1) + sent2 == mid.1 + (Run(mid.0, front).1 + sent2);
    }
  }

  lemma RunSnoc(st: State, ins: seq<Input>)
    requires st.Valid() && ins != []
    ensures var (before, last) := (Run(st, ins[..|ins| - 1]), ins[|ins| - 1]);
            Run(st, ins) == (Step(before.0, last.ch, last.now).0, before.1 + Step(before.0, last.ch, last.now).1)
  {
  }

  /** As long as no varuint is complete, only the decoder moves. */
  lemma {:induction false} RunIncomplete(st: State, ins: seq<Input>)
    requires st.Valid()
    requires forall i :: 0 < i <= |ins| ==> !VaruintDecoder.Reports(st.decoder, Bytes(ins)[..i])
    ensures Run(st, ins) == (st.(decoder := VaruintDecoder.After(st.decoder, Bytes(ins))), [])
  {
    hide Handle, VaruintDecoder.Step;
    if ins != [] {
      var front := ins[..|ins| - 1];
      assert Bytes(front) == Bytes(ins)[..|ins| - 1];
      forall i | 0 < i <= |front|
        ensures !VaruintDecoder.Reports(st.decoder, Bytes(front)[..i])
      {
        assert Bytes(front)[..i] == Bytes(ins)[..i];
      }
      RunIncomplete(st, front);
      RunSnoc(st, ins);
      assert Bytes(ins)[..|ins|] == Bytes(ins);
      AfterSnoc(st.decoder, Bytes(ins));
      var none: seq<Frame> := [];
      assert none + none == none;
    }
  }

  lemma AfterSnoc(d: VaruintDecoder.State, s: seq<byte>)
    requires s != []
    ensures var step := VaruintDecoder.Step(VaruintDecoder.After(d, s[..|s| - 1]), s[|s| - 1]);
            VaruintDecoder.After(d, s) == step.0 && VaruintDecoder.Reports(d, s) == step.1
  {
  }

  /** An encoding has, from any state, the effect of its value and overlong count. */
  lemma RunEncoding(st: State, ins: seq<Input>, v: uint32, k: nat)
    requires st.Valid() && Encodable(v, k) && Bytes(ins) == Encoding(v, k)
    ensures |ins| > 0
    ensures Run(st, ins) ==
            Handle(st.(decoder := VaruintDecoder.State(v, 0, |ins|)), v, k, ins[|ins| - 1].now)
  {
    hide Handle, Encoding, VaruintDecoder.Step, VaruintDecoder.OverlongOf;
    VaruintDecoder.Resynchronises(st.decoder, v, k);
    var front := ins[..|ins| - 1];
    assert Bytes(front) == Bytes(ins)[..|ins| - 1];
    forall i | 0 < i <= |front|
      ensures !VaruintDecoder.Reports(st.decoder, Bytes(front)[..i])
    {
      assert Bytes(front)[..i] == Bytes(ins)[..i];
    }
    RunIncomplete(st, front);
    RunSnoc(st, ins);
    AfterSnoc(st.decoder, Bytes(ins));
    assert forall sent: seq<Frame> :: [] + sent == sent;
  }

  // ----------------------------------------------------------------------------------------
  // Histograms
  // ----------------------------------------------------------------------------------------

  lemma AddNothing(st: State)
    requires st.Valid()
    ensures AddBins(st, []) == st
  {
  }

  lemma AddBinsConcat(st: State, a: seq<uint16>, b: seq<uint16>)
    requires st.Valid()
    ensures AddBins(AddBins(st, a), b) == AddBins(st, a + b)
  {
    var (s1, s2, s) := (AddBins(st, a), AddBins(AddBins(st, a), b), AddBins(st, a + b));
    assert s2.index == s.index;
    forall i | 0 <= i < HISTOGRAM_SIZE
      ensures s2.histogram[i] == s.histogram[i]
    {
      BinAt(st, a, i);
      BinAt(s1, b, i);
      BinAt(st, a + b, i);
    }
  }

  lemma BinAt(st: State, bins: seq<uint16>, i: nat)
    requires st.Valid() && i < HISTOGRAM_SIZE
    ensures AddBins(st, bins).histogram[i] ==
            if st.index <= i < st.index + |bins| then bins[i - st.index] else st.histogram[i]
  {
    var n := if st.index + |bins| <= HISTOGRAM_SIZE then |bins| else HISTOGRAM_SIZE - st.index;
    assert Splice(st.histogram, st.index, bins[..n]) ==
           st.histogram[..st.index] + bins[..n] + st.histogram[st.index + n..];
  }

  /** Bins added to a fresh histogram, as far as they fit, are all that it contains. */
  lemma AddWholeHistogram(st: State, h: seq<uint16>)
    requires st.Valid() && st.index == 0 && st.histogram == Zeros(HISTOGRAM_SIZE)
    ensures AddBins(st, h).histogram == Fitted(h)
    ensures AddBins(st, h).index == if |h| < HISTOGRAM_SIZE then |h| else HISTOGRAM_SIZE
  {
    var r := AddBins(st, h);
    forall i | 0 <= i < HISTOGRAM_SIZE
      ensures r.histogram[i] == Fitted(h)[i]
    {
      BinAt(st, h, i);
    }
  }

  /** A histogram of the right length: missing bins are empty, and excess ones are dropped. */
  function Fitted(h: seq<uint16>): (r: seq<uint16>)
    ensures |r| == HISTOGRAM_SIZE
    ensures forall i :: 0 <= i < HISTOGRAM_SIZE ==> r[i] == if i < |h| then h[i] else 0
    ensures |h| == HISTOGRAM_SIZE ==> r == h
  {
    if |h| >= HISTOGRAM_SIZE then h[..HISTOGRAM_SIZE] else h + Zeros(HISTOGRAM_SIZE - |h|)
  }

  /** One symbol of the packed form has the effect of the bins it stands for. */
  lemma RunSymbol(st: State, ins: seq<Input>, h: seq<uint16>)
    requires st.Valid() && h != [] && Bytes(ins) == Symbol(h)
    ensures var (r, sent) := Run(st, ins);
            sent == [] && r.(decoder := st.decoder) == AddBins(st, h[..Covered(h)])
  {
    hide Encoding, Run, AddBins, Report, StartHistogram;
    var n := Covered(h);
    if h[0] != 0 {
      RunEncoding(st, ins, h[0], 0);
      assert h[..n] == [h[0]];
      AddBinsDecoder(st, h[..n], VaruintDecoder.State(h[0], 0, |ins|));
    } else if n > 1 {
      RunEncoding(st, ins, n, 1);
      assert h[..n] == Zeros(n);
      AddBinsDecoder(st, h[..n], VaruintDecoder.State(n, 0, |ins|));
    } else {
      RunEncoding(st, ins, 0, 0);
      assert h[..n] == [0];
      AddBinsDecoder(st, h[..n], VaruintDecoder.State(0, 0, |ins|));
    }
  }

  /** The packed form of any histogram adds its bins and sends nothing. */
  lemma {:induction false} RunPacked(st: State, ins: seq<Input>, h: seq<uint16>)
    requires st.Valid() && Bytes(ins) == Packed(h)
    ensures var (r, sent) := Run(st, ins); sent == [] && r.(decoder := st.decoder) == AddBins(st, h)
    decreases |h|
  {
    hide Symbol, Covered, AddBins, Run;
    if h == [] {
      AddNothing(st);
      assert ins == [];
      RunNothing(st);
    } else {
      var n, rest := |Symbol(h)|, h[Covered(h)..];
      var a, b := ins[..n], ins[n..];
      assert Bytes(a) == Bytes(ins)[..n] == Symbol(h);
      assert Bytes(b) == Bytes(ins)[n..] == Packed(rest);
      RunSymbol(st, a, h);
      var mid := Run(st, a).0;
      RunPacked(mid, b, rest);
      RunConcat(st, a, b);
      assert ins == a + b;
      AddBinsConcat(st, h[..Covered(h)], rest);
      AddBinsDecoder(AddBins(st, h[..Covered(h)]), rest, mid.decoder);
      AddBinsDecoder(st, h, mid.decoder);
      assert h == h[..Covered(h)] + rest;
    }
  }

  lemma RunNothing(st: State)
    requires st.Valid()
    ensures Run(st, []) == (st, [])
  {
  }

  lemma AddBinsDecoder(st: State, bins: seq<uint16>, decoder: VaruintDecoder.State)
    requires st.Valid()
    ensures AddBins(st.(decoder := decoder), bins) == AddBins(st, bins).(decoder := decoder)
    ensures AddBins(st, bins).decoder == st.decoder
  {
  }

  // ----------------------------------------------------------------------------------------
  // Packets of histograms
  // ----------------------------------------------------------------------------------------

  /** What the scintillator module sends: packet markers, histograms, and numbers that mean nothing. */
  datatype Item =
    | Packet(at: uint32)
    | Block(scintillator: byte, histogram: seq<uint16>)
    | Unknown(value: uint32, overlong: nat)
  {
    predicate Valid() {
      match this
      case Packet(_) => true
      case Block(scintillator, _) => scintillator < NUM_SCINTILLATORS
      case Unknown(v, k) => Encodable(v, k) && (k >= 3 || (k == 2 && v >= NUM_SCINTILLATORS))
    }
  }

  /** The bytes of an item. */
  function Wire(item: Item): seq<byte>
    requires item.Valid()
  {
    match item
    case Packet(_) => Encoding(0, 1)
    case Block(scintillator, h) => Encoding(scintillator, 2) + Packed(h)
    case Unknown(v, k) => Encoding(v, k)
  }

  /** The inputs carry the item; the time of a packet is the time at which its marker is complete. */
  ghost predicate Carries(ins: seq<Input>, item: Item) {
    item.Valid() && Bytes(ins) == Wire(item) && (item.Packet? ==> ins != [] && ins[|ins| - 1].now == item.at)
  }

  ghost predicate CarryAll(parts: seq<seq<Input>>, items: seq<Item>) {
    |parts| == |items| && forall i :: 0 <= i < |items| ==> Carries(parts[i], items[i])
  }

  function Joined(parts: seq<seq<Input>>): seq<Input> {
    if parts == [] then [] else parts[0] + Joined(parts[1..])
  }

  /** The reference: what matters is the last packet time and the histogram received last. */
  datatype Pending = Pending(lastMessageAt: uint32, scintillator: byte, histogram: seq<uint16>)

  function PendingOf(st: State): Pending {
    Pending(st.lastMessageAt, st.scintillator, st.histogram)
  }

  function Expected(p: Pending, items: seq<Item>): (Pending, seq<Frame>)
    decreases |items|
  {
    if items == [] then (p, [])
    else match items[0]
      case Packet(at) => Expected(p.(lastMessageAt := at), items[1..])
      case Block(scintillator, h) =>
        var sent := if p.lastMessageAt > 0 then Report(p.lastMessageAt, p.scintillator, p.histogram) else [];
        var (p', rest) := Expected(Pending(p.lastMessageAt, scintillator, Fitted(h)), items[1..]);
        (p', sent + rest)
      case Unknown(_, _) => Expected(p, items[1..])
  }

  /** The bytes of a histogram replace whatever was there, after the previous one has been sent. */
  lemma RunBlock(st: State, ins: seq<Input>, scintillator: byte, h: seq<uint16>)
    requires st.Valid() && Carries(ins, Block(scintillator, h))
    ensures var (r, sent) := Run(st, ins);
            && PendingOf(r) == Pending(st.lastMessageAt, scintillator, Fitted(h))
            && r.index == (if |h| < HISTOGRAM_SIZE then |h| else HISTOGRAM_SIZE)
            && sent == if st.lastMessageAt > 0 then Report(st.lastMessageAt, st.scintillator, st.histogram) else []
  {
    hide Encoding, Packed, Run, Report, AddBins, Bytes;
    var n := |Encoding(scintillator, 2)|;
    var a, b := ins[..n], ins[n..];
    SplitBytes(ins, n);
    assert Wire(Block(scintillator, h)) == Encoding(scintillator, 2) + Packed(h);
    assert Bytes(a) == Encoding(scintillator, 2) && Bytes(b) == Packed(h);
    RunEncoding(st, a, scintillator, 2);
    var mid := Run(st, a).0;
    assert mid.index == 0 && mid.lastMessageAt == st.lastMessageAt && mid.scintillator == scintillator;
    RunPacked(mid, b, h);
    AddWholeHistogram(mid, h);
    AddBinsKeeps(mid, h);
    RunConcat(st, a, b);
    assert ins == a + b;
    var sent := Run(st, a).1;
    assert sent + [] == sent;
  }

  lemma SplitBytes(ins: seq<Input>, n: nat)
    requires n <= |ins|
    ensures Bytes(ins[..n]) == Bytes(ins)[..n] && Bytes(ins[n..]) == Bytes(ins)[n..]
  {
  }

  lemma AddBinsKeeps(st: State, bins: seq<uint16>)
    requires st.Valid()
    ensures var r := AddBins(st, bins); r.scintillator == st.scintillator && r.lastMessageAt == st.lastMessageAt
  {
  }

  /** Varuints of other kinds are ignored. */
  lemma RunUnknown(st: State, ins: seq<Input>, v: uint32, k: nat)
    requires st.Valid() && Carries(ins, Unknown(v, k))
    ensures var (r, sent) := Run(st, ins); r.(decoder := st.decoder) == st && sent == []
  {
    hide Encoding, Run;
    RunEncoding(st, ins, v, k);
  }

  /** A single bin: a value beyond the largest bin is stored as the largest one, and a full histogram stays. */
  lemma RunBin(st: State, ins: seq<Input>, v: uint32)
    requires st.Valid() && Bytes(ins) == Encoding(v, 0)
    ensures var (r, sent) := Run(st, ins);
            && sent == []
            && r.(decoder := st.decoder) ==
               if st.index == 256 then st
               else st.(histogram := st.histogram[st.index := if v <= 65535 then v else 65535], index := st.index + 1)
  {
    hide Encoding, Run;
    RunEncoding(st, ins, v, 0);
    AddBinIs(st.(decoder := Run(st, ins).0.decoder), v);
  }

  lemma AddBinIs(st: State, v: uint32)
    requires st.Valid()
    ensures AddBins(st, [Clamp(v)]) ==
            if st.index == 256 then st
            else st.(histogram := st.histogram[st.index := if v <= 65535 then v else 65535], index := st.index + 1)
  {
    var bin := if v <= 65535 then v else 65535;
    assert Clamp(v) == bin;
    assert [bin][..0] == [] && [bin][..1] == [bin];
    var h := st.histogram;
    if st.index < 256 {
      assert h[..st.index] + [bin] + h[st.index + 1..] == h[st.index := bin];
    } else {
      assert h[..256] + [] + h[256..] == h;
    }
  }

  /** A run of empty bins, as far as they fit. */
  lemma RunZeros(st: State, ins: seq<Input>, n: uint32)
    requires st.Valid() && n > 0 && Encodable(n, 1) && Bytes(ins) == Encoding(n, 1)
    ensures var (r, sent) := Run(st, ins); var end := if st.index + n <= 256 then st.index + n else 256;
            && sent == [] && r.index == end && r.scintillator == st.scintillator && r.lastMessageAt == st.lastMessageAt
            && forall i :: 0 <= i < 256 ==> r.histogram[i] == if st.index <= i < end then 0 else st.histogram[i]
  {
    hide Encoding, Run;
    RunEncoding(st, ins, n, 1);
    var d := st.(decoder := Run(st, ins).0.decoder);
    forall i | 0 <= i < 256
      ensures AddBins(d, Zeros(n)).histogram[i] ==
              if st.index <= i < (if st.index + n <= 256 then st.index + n else 256) then 0 else st.histogram[i]
    {
      BinAt(d, Zeros(n), i);
    }
  }

  lemma RunPacket(st: State, ins: seq<Input>, at: uint32)
    requires st.Valid() && Carries(ins, Packet(at))
    ensures var (r, sent) := Run(st, ins); PendingOf(r) == PendingOf(st).(lastMessageAt := at) && sent == []
  {
    hide Encoding, Run;
    RunEncoding(st, ins, 0, 1);
  }

  /**
   * From any receiver state, the bytes of any sequence of packet markers and histograms send
   * exactly the frames that the reference expects, and leave exactly the last histogram behind.
   */
  lemma {:induction false} RunItems(st: State, parts: seq<seq<Input>>, items: seq<Item>)
    requires st.Valid() && CarryAll(parts, items)
    ensures var (r, sent) := Run(st, Joined(parts)); (PendingOf(r), sent) == Expected(PendingOf(st), items)
    decreases |items|
  {
    hide Run, Report, Wire;
    if items == [] {
      RunNothing(st);
    } else {
      assert Carries(parts[0], items[0]);
      assert CarryAll(parts[1..], items[1..]);
      RunConcat(st, parts[0], Joined(parts[1..]));
      RunItems(Run(st, parts[0]).0, parts[1..], items[1..]);
      match items[0]
      case Packet(at) =>
        RunPacket(st, parts[0], at);
        assert forall sent: seq<Frame> :: [] + sent == sent;
      case Block(scintillator, h) =>
        RunBlock(st, parts[0], scintillator, h);
      case Unknown(v, k) =>
        RunUnknown(st, parts[0], v, k);
        assert forall sent: seq<Frame> :: [] + sent == sent;
    }
  }

  // ----------------------------------------------------------------------------------------
  // What the frames of a histogram deliver
  // ----------------------------------------------------------------------------------------

  function Datas(fs: seq<Frame>): (ds: seq<seq<byte>>)
    ensures |ds| == |fs|
  {
    seq(|fs|, i requires 0 <= i < |fs| => fs[i].data)
  }

  /**
   * If the packed form fits into the buffer, the frames are indexed from zero to the announced
   * maximum, and their data, put together and unpacked, is the histogram.
   */
  lemma ReportDelivers(timestamp: uint32, scintillator: byte, h: seq<uint16>)
    requires h != [] && |Packed(h)| <= PACKED_CAPACITY
    ensures var fs := Report(timestamp, scintillator, h); var data := Concat(Datas(fs));
            && fs != [] && data == Packed(h) && Unpacked(data, |data|) == h
            && forall i :: 0 <= i < |fs| ==>
                 && fs[i].fragmentIndex == i && fs[i].maxFragmentIndex == |fs| - 1
                 && fs[i].timestamp == timestamp && fs[i].scintillator == scintillator
                 && 0 < |fs[i].data| <= FRAGMENT_SIZE
  {
    hide Packed, Fragments, Unpacked;
    var packed := Packed(h);
    var fs := Frames(timestamp, scintillator, packed);
    assert Datas(fs) == Fragments(packed, FRAGMENT_SIZE);
    ConcatOfFragments(packed, FRAGMENT_SIZE);
    UnpackOfPack(h, []);
    assert packed + [] == packed;
    FrameCount(timestamp, scintillator, packed);
    PackedNotEmpty(h);
    forall i | 0 <= i < |fs|
      ensures 0 < |fs[i].data| <= FRAGMENT_SIZE
    {
      FrameAt(timestamp, scintillator, packed, i);
    }
  }

  lemma PackedNotEmpty(h: seq<uint16>)
    requires h != []
    ensures |Packed(h)| > 0
  {
  }

  /** Histograms without a bin of 4096 or more always fit. */
  lemma SmallCountsFit(h: seq<uint16>)
    requires |h| == HISTOGRAM_SIZE && forall i :: 0 <= i < |h| ==> h[i] < 0x1000
    ensures |Packed(h)| <= PACKED_CAPACITY
  {
    PackingNeverExpands(h);
    PlainSizeOfSmall(h);
  }

  lemma {:induction false} PlainSizeOfSmall(h: seq<uint16>)
    requires forall i :: 0 <= i < |h| ==> h[i] < 0x1000
    ensures PlainSize(h) <= 2 * |h|
  {
    if h != [] {
      PlainSizeOfSmall(h[1..]);
    }
  }

  /** A histogram is sent if and only if its packed form fits. */
  lemma SentIffItFits(timestamp: uint32, scintillator: byte, h: seq<uint16>)
    requires h != []
    ensures Report(timestamp, scintillator, h) != [] <==> |Packed(h)| <= PACKED_CAPACITY
  {
    hide Packed, Fragments;
    if |Packed(h)| <= PACKED_CAPACITY {
      ReportDelivers(timestamp, scintillator, h);
    }
  }

  /** With larger counts the packed form can exceed the buffer; then nothing is sent at all. */
  lemma LargeCountsAreLost(timestamp: uint32, scintillator: byte)
    ensures var h: seq<uint16> := seq(HISTOGRAM_SIZE, _ => 0x1000);
            |Packed(h)| == 768 && Report(timestamp, scintillator, h) == []
  {
    PackedLarge(HISTOGRAM_SIZE);
  }

  lemma {:induction false} PackedLarge(n: nat)
    ensures |Packed(seq(n, _ => 0x1000))| == 3 * n
  {
    if n > 0 {
      var h: seq<uint16> := seq(n, _ => 0x1000);
      assert h[1..] == seq(n - 1, _ => 0x1000);
      PackedLarge(n - 1);
    }
  }

  // ----------------------------------------------------------------------------------------
  // Which packet time a histogram is sent with
  // ----------------------------------------------------------------------------------------

  /** The time of the last packet marker among the items, or the given time if there is none. */
  function Mark(before: uint32, items: seq<Item>): uint32 {
    if items == [] then before
    else
      match items[|items| - 1]
      case Packet(at) => at
      case _ => Mark(before, items[..|items| - 1])
  }

  predicate NoBlock(items: seq<Item>) {
    forall k :: 0 <= k < |items| ==> !items[k].Block?
  }

  lemma {:induction false} ExpectedSnoc(p: Pending, items: seq<Item>, item: Item)
    ensures Expected(p, items + [item]).0 == Expected(Expected(p, items).0, [item]).0
    decreases |items|
  {
    hide Report;
    if items == [] {
      assert items + [item] == [item];
    } else {
      assert (items + [item])[1..] == items[1..] + [item];
      match items[0]
      case Packet(at) => ExpectedSnoc(p.(lastMessageAt := at), items[1..], item);
      case Block(scintillator, h) =>
        ExpectedSnoc(Pending(p.lastMessageAt, scintillator, Fitted(h)), items[1..], item);
      case Unknown(_, _) => ExpectedSnoc(p, items[1..], item);
    }
  }

  /** What is pending after one more item. */
  function Advanced(p: Pending, item: Item): Pending {
    match item
    case Packet(at) => p.(lastMessageAt := at)
    case Block(scintillator, h) => Pending(p.lastMessageAt, scintillator, Fitted(h))
    case Unknown(_, _) => p
  }

  /** What is sent for it. */
  function SentFor(p: Pending, item: Item): seq<Frame> {
    if item.Block? && p.lastMessageAt > 0 then Report(p.lastMessageAt, p.scintillator, p.histogram) else []
  }

  lemma ExpectedOne(p: Pending, item: Item)
    ensures Expected(p, [item]).0 == Advanced(p, item)
  {
    hide Report;
  }

  /** What is pending after some items: the last packet time and the last histogram. */
  lemma {:induction false} PendingTime(p: Pending, items: seq<Item>)
    ensures Expected(p, items).0.lastMessageAt == Mark(p.lastMessageAt, items)
  {
    hide Expected;
    if items == [] {
      assert Expected(p, []).0 == p by { ExpectedNothing(p); }
    } else {
      var front, last := items[..|items| - 1], items[|items| - 1];
      PendingTime(p, front);
      assert items == front + [last];
      ExpectedSnoc(p, front, last);
      ExpectedOne(Expected(p, front).0, last);
    }
  }

  lemma ExpectedNothing(p: Pending)
    ensures Expected(p, []) == (p, [])
  {
  }

  lemma {:induction false} PendingBlock(p: Pending, items: seq<Item>, i: nat)
    requires i < |items| && items[i].Block? && NoBlock(items[i + 1..])
    ensures var q := Expected(p, items).0;
            q.scintillator == items[i].scintillator && q.histogram == Fitted(items[i].histogram)
    decreases |items|
  {
    hide Expected;
    var front, last := items[..|items| - 1], items[|items| - 1];
    assert items == front + [last];
    ExpectedSnoc(p, front, last);
    ExpectedOne(Expected(p, front).0, last);
    if i < |items| - 1 {
      assert front[i + 1..] == items[i + 1..][..|items| - i - 2];
      assert last == items[i + 1..][|items| - i - 2];
      PendingBlock(p, front, i);
    }
  }

  /** The frames that the receiver sends while it processes the j-th of the parts. */
  function SentAt(st: State, parts: seq<seq<Input>>, j: nat): seq<Frame>
    requires st.Valid() && j < |parts|
  {
    Run(Run(st, Joined(parts[..j])).0, parts[j]).1
  }

  /**
   * In any sequence of items and from any receiver state: a histogram is sent while the next one
   * starts, with the time of the packet marker that came last before that.
   */
  lemma SentWithTheNext(st: State, parts: seq<seq<Input>>, items: seq<Item>, i: nat, j: nat)
    requires st.Valid() && CarryAll(parts, items) && i < j < |items|
    requires items[i].Block? && items[j].Block? && NoBlock(items[i + 1..j])
    ensures var t := Mark(st.lastMessageAt, items[..j]);
            SentAt(st, parts, j) == if t > 0 then Report(t, items[i].scintillator, Fitted(items[i].histogram)) else []
  {
    hide Run, Report, Wire, Expected, Mark, Joined;
    assert CarryAll(parts[..j], items[..j]);
    RunItems(st, parts[..j], items[..j]);
    PendingTime(PendingOf(st), items[..j]);
    assert items[..j][i + 1..] == items[i + 1..j];
    PendingBlock(PendingOf(st), items[..j], i);
    RunBlock(Run(st, Joined(parts[..j])).0, parts[j], items[j].scintillator, items[j].histogram);
  }

  /** Frames tell apart the times that they carry. */
  lemma StampsDiffer(t: uint32, t': uint32, scintillator: byte, h: seq<uint16>)
    requires h != [] && |Packed(h)| <= PACKED_CAPACITY
    ensures Report(t, scintillator, h) == Report(t', scintillator, h) <==> t == t'
    ensures Report(t, scintillator, h) != []
  {
    hide Report, Packed, Unpacked;
    ReportDelivers(t, scintillator, h);
    ReportDelivers(t', scintillator, h);
    if Report(t, scintillator, h) == Report(t', scintillator, h) {
      assert Report(t, scintillator, h)[0].timestamp == Report(t', scintillator, h)[0].timestamp;
    }
  }

  /**
   * It carries the time of its own packet, the last one before it, if and only if there is no packet
   * marker until the next histogram, or the last one has that same time.
   */
  lemma SentWithItsOwnTimeIff(st: State, parts: seq<seq<Input>>, items: seq<Item>, i: nat, j: nat)
    requires st.Valid() && CarryAll(parts, items) && i < j < |items|
    requires items[i].Block? && items[j].Block? && NoBlock(items[i + 1..j])
    requires Mark(st.lastMessageAt, items[..i]) > 0 && |Packed(Fitted(items[i].histogram))| <= PACKED_CAPACITY
    ensures var own := Mark(st.lastMessageAt, items[..i]);
            SentAt(st, parts, j) == Report(own, items[i].scintillator, Fitted(items[i].histogram)) <==>
            Mark(own, items[i + 1..j]) == own
  {
    hide Run, Report, Wire, Packed, SentAt;
    assert Carries(parts[i], items[i]);
    SentWithTheNext(st, parts, items, i, j);
    MarkBetween(st.lastMessageAt, items, i, j);
    var own, t := Mark(st.lastMessageAt, items[..i]), Mark(st.lastMessageAt, items[..j]);
    StampsDiffer(own, t, items[i].scintillator, Fitted(items[i].histogram));
  }

  lemma {:induction false} MarkBetween(before: uint32, items: seq<Item>, i: nat, j: nat)
    requires i < j <= |items| && items[i].Block?
    ensures Mark(before, items[..j]) == Mark(Mark(before, items[..i]), items[i + 1..j])
  {
    var later := items[i + 1..j];
    assert items[..j][..j - 1] == items[..j - 1];
    if j > i + 1 {
      MarkBetween(before, items, i, j - 1);
      assert later[..j - i - 2] == items[i + 1..j - 1] && later[j - i - 2] == items[j - 1];
    }
  }

  /** An example: the last histogram of one packet carries the time of the next packet. */
  lemma LastHistogramIsStampedLate(st: State, parts: seq<seq<Input>>, t1: uint32, t2: uint32,
                                   g: seq<uint16>, h: seq<uint16>)
    requires st.Valid() && st.lastMessageAt == 0 && t2 > 0
    requires CarryAll(parts, [Packet(t1), Block(2, g), Packet(t2), Block(0, h)])
    ensures Run(st, Joined(parts)).1 ==
            (if t1 > 0 then Report(t1, st.scintillator, st.histogram) else []) + Report(t2, 2, Fitted(g))
  {
    hide Run, Report, CarryAll, Joined, Expected;
    var items := [Packet(t1), Block(2, g), Packet(t2), Block(0, h)];
    RunItems(st, parts, items);
    var p, late := PendingOf(st), Report(t2, 2, Fitted(g));
    ExpectedCons(p, items[0], [Block(2, g), Packet(t2), Block(0, h)]);
    ExpectedCons(p.(lastMessageAt := t1), items[1], [Packet(t2), Block(0, h)]);
    ExpectedCons(Pending(t1, 2, Fitted(g)), items[2], [Block(0, h)]);
    ExpectedCons(Pending(t2, 2, Fitted(g)), items[3], []);
    ExpectedNothing(Pending(t2, 0, Fitted(h)));
    assert items == [items[0]] + [Block(2, g), Packet(t2), Block(0, h)];
    assert [Block(2, g), Packet(t2), Block(0, h)] == [items[1]] + [Packet(t2), Block(0, h)];
    assert [Packet(t2), Block(0, h)] == [items[2]] + [Block(0, h)];
    assert [Block(0, h)] == [items[3]] + [];
    assert late + [] == late;
  }

  lemma ExpectedCons(p: Pending, item: Item, items: seq<Item>)
    ensures Expected(p, [item] + items) ==
            (Expected(Advanced(p, item), items).0, SentFor(p, item) + Expected(Advanced(p, item), items).1)
  {
    hide Report;
    assert ([item] + items)[1..] == items;
    assert forall sent: seq<Frame> :: [] + sent == sent;
  }
}
