/**
 * The receiver of the scintillator module: it rebuilds histograms from a byte stream of varuints
 * and sends each of them, packed and fragmented, when the next one starts.
 */
module Scm {
  import opened Machine
  import opened Varuint
  import opened Histogram
  import opened Fragmentation
  import VaruintDecoder

  const NUM_SCINTILLATORS: nat := 3
  const HISTOGRAM_SIZE: nat := 256
  const PACKED_CAPACITY: nat := 512
  const FRAGMENT_SIZE: nat := 56

  datatype Frame = Frame(
    timestamp: uint32, scintillator: byte, maxFragmentIndex: byte, fragmentIndex: byte, data: seq<byte>)

  datatype State = State(
    decoder: VaruintDecoder.State, scintillator: byte, histogram: seq<uint16>, index: nat, lastMessageAt: uint32)
  {
    predicate Valid() {
      |histogram| == HISTOGRAM_SIZE && index <= HISTOGRAM_SIZE
    }
  }

  /** Stores bins at the write position; bins that do not fit any more are dropped. */
  function AddBins(st: State, bins: seq<uint16>): (r: State)
    requires st.Valid()
    ensures r.Valid()
  {
    var n := if st.index + |bins| <= HISTOGRAM_SIZE then |bins| else HISTOGRAM_SIZE - st.index;
    st.(histogram := Splice(st.histogram, st.index, bins[..n]), index := st.index + n)
  }

  function StartHistogram(st: State, scintillator: byte): (r: State)
    ensures r.Valid()
  {
    st.(scintillator := scintillator, index := 0, histogram := Zeros(HISTOGRAM_SIZE))
  }

  /** A value too large for a bin is stored as the largest bin. */
  function Clamp(value: uint32): uint16 {
    if value >= 0xFFFF then 0xFFFF else value
  }

  /** The frames that carry one packed histogram. */
  function Frames(timestamp: uint32, scintillator: byte, packed: seq<byte>): (fs: seq<Frame>)
    requires |packed| <= PACKED_CAPACITY
  {
    var parts := Fragments(packed, FRAGMENT_SIZE);
    AtMostTen(packed);
    seq(|parts|, i requires 0 <= i < |parts| => Frame(timestamp, scintillator, |parts| - 1, i, parts[i]))
  }

  lemma AtMostTen(packed: seq<byte>)
    requires |packed| <= PACKED_CAPACITY
    ensures |Fragments(packed, FRAGMENT_SIZE)| <= 10
  {
    FragmentCountIs(packed, FRAGMENT_SIZE);
  }

  function FragmentStart(end: nat, i: nat): nat {
    if end <= FRAGMENT_SIZE * i then end else FRAGMENT_SIZE * i
  }

  lemma FrameCount(timestamp: uint32, scintillator: byte, packed: seq<byte>)
    requires |packed| <= PACKED_CAPACITY
    ensures |Frames(timestamp, scintillator, packed)| == FragmentCount(|packed|, FRAGMENT_SIZE) <= 10
  {
    FragmentCountIs(packed, FRAGMENT_SIZE);
    AtMostTen(packed);
  }

  lemma FrameAt(timestamp: uint32, scintillator: byte, packed: seq<byte>, i: nat)
    requires |packed| <= PACKED_CAPACITY && i < |Frames(timestamp, scintillator, packed)|
    ensures var fs := Frames(timestamp, scintillator, packed);
            var (a, b) := (FragmentStart(|packed|, i), FragmentStart(|packed|, i + 1));
            && a < b <= |packed| && b - a <= FRAGMENT_SIZE && (b - a < FRAGMENT_SIZE ==> b == |packed|)
            && |fs| <= 10 && fs[i] == Frame(timestamp, scintillator, |fs| - 1, i, packed[a..b])
  {
    AtMostTen(packed);
    FragmentAt(packed, FRAGMENT_SIZE, i);
  }

  lemma NextFrame(timestamp: uint32, scintillator: byte, packed: seq<byte>, i: nat)
    requires |packed| <= PACKED_CAPACITY && i < |Frames(timestamp, scintillator, packed)|
    ensures var (fs, ptr) := (Frames(timestamp, scintillator, packed), FragmentStart(|packed|, i));
            var length := if |packed| - ptr > FRAGMENT_SIZE then FRAGMENT_SIZE else |packed| - ptr;
            && ptr < |packed| && FragmentStart(|packed|, i + 1) == ptr + length && |fs| <= 10
            && fs[i] == Frame(timestamp, scintillator, |fs| - 1, i, packed[ptr..ptr + length])
  {
    FrameAt(timestamp, scintillator, packed, i);
    hide Frames, FragmentStart;
  }

  /** What is sent for a finished histogram: nothing if it does not fit into the packing buffer. */
  function Report(timestamp: uint32, scintillator: byte, histogram: seq<uint16>): seq<Frame> {
    if |Packed(histogram)| > PACKED_CAPACITY then []
    else Frames(timestamp, scintillator, Packed(histogram))
  }

  /** Effect of one decoded varuint. */
  function Handle(st: State, value: uint32, overlong: nat, now: uint32): (State, seq<Frame>)
    requires st.Valid()
  {
    if overlong == 2 && value < NUM_SCINTILLATORS then
      (StartHistogram(st, value),
       if st.lastMessageAt > 0 then Report(st.lastMessageAt, st.scintillator, st.histogram) else [])
    else if overlong == 1 && value == 0 then
      (st.(lastMessageAt := now), [])
    else if overlong == 1 then
      (AddBins(st, Zeros(value)), [])
    else if overlong == 0 then
      (AddBins(st, [Clamp(value)]), [])
    else
      (st, [])
  }

  /** Effect of one byte that arrives at time now. */
  function Step(st: State, ch: byte, now: uint32): (State, seq<Frame>)
    requires st.Valid()
  {
    var (decoder, complete) := VaruintDecoder.Step(st.decoder, ch);
    var st' := st.(decoder := decoder);
    if complete then Handle(st', decoder.value, VaruintDecoder.OverlongOf(decoder), now) else (st', [])
  }

  /** The byte completes the marker of a new packet: a zero with one byte more than it needs. */
  predicate CompletesPacketMarker(decoder: VaruintDecoder.State, ch: byte) {
    var (d, complete) := VaruintDecoder.Step(decoder, ch);
    complete && d.value == 0 && VaruintDecoder.OverlongOf(d) == 1
  }

  lemma StepIsValid(st: State, ch: byte, now: uint32)
    requires st.Valid()
    ensures Step(st, ch, now).0.Valid()
  {
    hide AddBins, StartHistogram, Report, VaruintDecoder.Step, VaruintDecoder.OverlongOf;
  }

  lemma ZerosAdded(before: seq<uint16>, now: seq<uint16>, start: nat, n: nat, count: nat)
    requires |before| == |now| && start + n <= |now| && n <= count
    requires forall i :: 0 <= i < start || start + n <= i < |now| ==> now[i] == before[i]
    requires forall i :: start <= i < start + n ==> now[i] == 0
    ensures now == Splice(before, start, Zeros(count)[..n])
  {
    hide Splice;
    assert now[start..start + n] == Zeros(count)[..n];
    assert now[..start] == before[..start] && now[start + n..] == before[start + n..];
    SpliceIs(before, start, Zeros(count)[..n], now);
  }

  class Receiver {
    const decoder: VaruintDecoder.Decoder
    const histogram: array<uint16>
    const packedHistogram: array<byte>
    var scintillatorIndex: byte
    var histogramIndex: nat
    var packedHistogramEnd: Option<nat>
    var lastMessageStartedAt: uint32
    /** The frames handed over to the telemetry module so far. */
    var sent: seq<Frame>

    ghost predicate Valid()
      reads this
    {
      && histogram.Length == HISTOGRAM_SIZE && packedHistogram.Length == PACKED_CAPACITY
      && histogramIndex <= HISTOGRAM_SIZE
    }

    ghost function Abstract(): State
      reads this, decoder, histogram
    {
      State(decoder.Abstract(), scintillatorIndex, histogram[..], histogramIndex, lastMessageStartedAt)
    }

    constructor ()
      ensures Valid() && sent == [] && fresh(decoder) && fresh(histogram) && fresh(packedHistogram)
      ensures Abstract() == State(VaruintDecoder.INITIAL, 0, Zeros(HISTOGRAM_SIZE), 0, 0)
    {
      decoder := new VaruintDecoder.Decoder();
      histogram := new uint16[HISTOGRAM_SIZE](_ => 0);
      packedHistogram := new byte[PACKED_CAPACITY](_ => 0);
      scintillatorIndex, histogramIndex, lastMessageStartedAt, sent := 0, 0, 0, [];
      packedHistogramEnd := None;
      new;
      assert histogram[..] == Zeros(HISTOGRAM_SIZE);
    }

    method StartHistogramForScintillator(index: byte)
      requires Valid()
      modifies this`scintillatorIndex, this`histogramIndex, histogram
      ensures Valid() && Abstract() == StartHistogram(old(Abstract()), index)
    {
      scintillatorIndex, histogramIndex := index, 0;
      forall i | 0 <= i < HISTOGRAM_SIZE {
        histogram[i] := 0;
      }
      assert histogram[..] == Zeros(HISTOGRAM_SIZE);
    }

    method AddNonzeroToHistogram(value: uint32)
      requires Valid()
      modifies this`histogramIndex, histogram
      ensures Valid() && Abstract() == AddBins(old(Abstract()), [Clamp(value)])
    {
      if histogramIndex >= HISTOGRAM_SIZE {
        assert [Clamp(value)][..0] == [];
        return;
      }
      assert [Clamp(value)][..1] == [Clamp(value)];
      histogram[histogramIndex] := if value >= 0xFFFF then 0xFFFF else value;
      histogramIndex := histogramIndex + 1;
    }

    method AddZerosToHistogram(count: uint32)
      requires Valid()
      modifies this`histogramIndex, histogram
      ensures Valid() && Abstract() == AddBins(old(Abstract()), Zeros(count))
    {
      hide Splice, Zeros;
      var left := count;
      ghost var start, before := histogramIndex, histogram[..];
      while left > 0 && histogramIndex < HISTOGRAM_SIZE
        invariant histogramIndex == start + (count - left) <= HISTOGRAM_SIZE
        invariant forall i :: 0 <= i < start || histogramIndex <= i < HISTOGRAM_SIZE ==> histogram[i] == before[i]
        invariant forall i :: start <= i < histogramIndex ==> histogram[i] == 0
      {
        histogram[histogramIndex] := 0;
        histogramIndex := histogramIndex + 1;
        left := left - 1;
      }
      ZerosAdded(before, histogram[..], start, histogramIndex - start, count);
    }

    method PackHistogram() returns (success: bool)
      requires Valid()
      modifies this`packedHistogramEnd, packedHistogram
      ensures success == (|Packed(histogram[..])| <= PACKED_CAPACITY)
      ensures success ==> packedHistogramEnd == Some(|Packed(histogram[..])|)
      ensures success ==> packedHistogram[..|Packed(histogram[..])|] == Packed(histogram[..])
      ensures histogram[..] == old(histogram[..])
    {
      var size := GetPackedSize(histogram);
      if size > packedHistogram.Length {
        packedHistogramEnd := None;
        return false;
      }
      var end := Pack(packedHistogram, histogram);
      packedHistogramEnd := Some(end);
      return true;
    }

    method SendSCMMeasurement(end: nat)
      requires Valid() && end <= PACKED_CAPACITY
      modifies this`sent
      ensures sent == old(sent) + Frames(lastMessageStartedAt, scintillatorIndex, packedHistogram[..end])
    {
      hide Fragments, Frames;
      ghost var packed := packedHistogram[..end];
      var numFragments := end / FRAGMENT_SIZE;
      if end % FRAGMENT_SIZE > 0 {
        numFragments := numFragments + 1;
      }
      ghost var frames := Frames(lastMessageStartedAt, scintillatorIndex, packed);
      FrameCount(lastMessageStartedAt, scintillatorIndex, packed);
      if numFragments == 0 {
        assert frames == [];
        return;
      }
      var i, ptr := 0, 0;
      assert FragmentStart(end, 0) == 0;
      hide FragmentStart, FragmentCount;
      while i < numFragments
        modifies this`sent
        invariant 0 <= i <= numFragments && ptr == FragmentStart(end, i)
        invariant sent == old(sent) + frames[..i]
      {
        assert frames[..i + 1] == frames[..i] + [frames[i]];
        ptr := SendFragment(end, numFragments, i, ptr);
        i := i + 1;
      }
      assert frames[..i] == frames;
    }

    /** One round of the loop. */
    method SendFragment(end: nat, numFragments: nat, i: nat, ptr: nat) returns (next: nat)
      requires Valid() && end <= PACKED_CAPACITY && ptr == FragmentStart(end, i)
      requires var fs := Frames(lastMessageStartedAt, scintillatorIndex, packedHistogram[..end]);
               i < |fs| == numFragments
      modifies this`sent
      ensures sent == old(sent) + [Frames(lastMessageStartedAt, scintillatorIndex, packedHistogram[..end])[i]]
      ensures next == FragmentStart(end, i + 1)
    {
      hide Frames, FragmentStart;
      ghost var packed := packedHistogram[..end];
      NextFrame(lastMessageStartedAt, scintillatorIndex, packed, i);
      var length := end - ptr;
      if length > FRAGMENT_SIZE {
        length := FRAGMENT_SIZE;
      }
      var data := packedHistogram[ptr..ptr + length];
      SliceOfSlice(packedHistogram[..], 0, end, ptr, ptr + length);
      assert packedHistogram[..][0..end] == packed && packedHistogram[..][ptr..ptr + length] == data;
      sent := sent + [Frame(lastMessageStartedAt, scintillatorIndex, numFragments - 1, i, data)];
      next := ptr + length;
    }

    /** Processes one byte read from the UART at time now. */
    method Update(ch: byte, now: uint32) returns (updated: bool)
      requires Valid()
      modifies this, decoder, histogram, packedHistogram
      ensures Valid()
      ensures Abstract() == Step(old(Abstract()), ch, now).0
      ensures sent == old(sent) + Step(old(Abstract()), ch, now).1
      ensures updated == CompletesPacketMarker(old(Abstract().decoder), ch)
    {
      hide Frames, AddBins, StartHistogram, VaruintDecoder.Step, VaruintDecoder.OverlongOf, Packed, Splice, Clamp;
      updated := false;
      var complete := decoder.Feed(ch);
      if complete {
        var value := decoder.value;
        var overlong := decoder.GetOverlong();
        if overlong == 2 && value < NUM_SCINTILLATORS {
          if lastMessageStartedAt > 0 {
            var success := PackHistogram();
            if success {
              SendSCMMeasurement(packedHistogramEnd.value);
            }
          }
          StartHistogramForScintillator(value);
        } else if overlong == 1 && value == 0 {
          lastMessageStartedAt := now;
          updated := true;
        } else if overlong == 1 {
          AddZerosToHistogram(value);
        } else if overlong == 0 {
          AddNonzeroToHistogram(value);
        }
      }
    }
  }
}
