/** The incremental varuint decoder, and its agreement with the batch decoder on every stream. */
module VaruintDecoder {
  import opened Machine
  import opened Varuint

  datatype State = State(value: uint32, bytesLeft: byte, bytesRead: byte)

  const INITIAL := State(0, 0, 0)

  /** Effect of one byte: the new state, and whether it completes a varuint. */
  function Step(st: State, ch: byte): (State, bool) {
    if IsStart(ch) then
      (State(Payload(ch), Following(ch), 1), Following(ch) == 0)
    else if st.bytesLeft > 0 then
      (State(Wrap(st.value * 0x80 + Digit(ch)), st.bytesLeft - 1, (st.bytesRead + 1) % 0x100), st.bytesLeft == 1)
    else
      (st, false)
  }

  /** The overlong count, computed in a byte. */
  function OverlongOf(st: State): byte {
    (st.bytesRead - CompactSize(st.value)) % 0x100
  }

  class Decoder {
    var value: uint32
    var bytesLeft: byte
    var bytesRead: byte

    function Abstract(): State
      reads this
    {
      State(value, bytesLeft, bytesRead)
    }

    constructor ()
      ensures Abstract() == INITIAL
    {
      value, bytesLeft, bytesRead := 0, 0, 0;
    }

    method Reset()
      modifies this
      ensures Abstract() == INITIAL
    {
      value, bytesLeft, bytesRead := 0, 0, 0;
    }

    method Feed(ch: byte) returns (complete: bool)
      modifies this
      ensures (Abstract(), complete) == Step(old(Abstract()), ch)
    {
      var continues := TopBitSet(ch);
      if !continues {
        var i := FindMarker(ch);
        var payload := MaskPayload(ch, i);
        bytesLeft, bytesRead, value := i, 1, payload;
      } else if bytesLeft > 0 {
        bytesLeft := bytesLeft - 1;
        bytesRead := (bytesRead + 1) % 0x100;
        value := ShiftIn(value, ch);
      } else {
        return false;
      }
      return bytesLeft == 0;
    }

    method GetOverlong() returns (overlong: byte)
      ensures overlong == OverlongOf(Abstract())
    {
      var compact := Size(value);
      overlong := (bytesRead - compact) % 0x100;
    }
  }

  // ----------------------------------------------------------------------------------------
  // Streams
  // ----------------------------------------------------------------------------------------

  /** The state after feeding s, starting in st. */
  function After(st: State, s: seq<byte>): State {
    if s == [] then st else Step(After(st, s[..|s| - 1]), s[|s| - 1]).0
  }

  /** Whether the last byte of s completes a varuint. */
  predicate Reports(st: State, s: seq<byte>) {
    s != [] && Step(After(st, s[..|s| - 1]), s[|s| - 1]).1
  }

  /** A stream can be fed in two pieces. */
  lemma {:induction false} AfterConcat(st: State, a: seq<byte>, b: seq<byte>)
    ensures After(st, a + b) == After(After(st, a), b)
    ensures b != [] ==> Reports(st, a + b) == Reports(After(st, a), b)
  {
    if b == [] {
      assert a + b == a;
    } else {
      assert (a + b)[..|a + b| - 1] == a + b[..|b| - 1];
      AfterConcat(st, a, b[..|b| - 1]);
    }
  }

  /** Where the decoder stands after a starting byte and some continuation bytes. */
  predicate Stands(st: State, reports: bool, start: byte, ds: seq<byte>)
    requires IsStart(start)
  {
    var m := Following(start);
    && (reports <==> |ds| == m) && (|ds| > m ==> st.bytesLeft == 0)
    && (|ds| <= m ==> st == State(Wrap(Number(Payload(start), ds)), m - |ds|, |ds| + 1))
  }

  lemma StandsAtStart(st: State, start: byte)
    requires IsStart(start)
    ensures var (st', reports) := Step(st, start); Stands(st', reports, start, [])
  {
    WrapSmall(Payload(start));
  }

  lemma StandsAfter(st: State, reports: bool, start: byte, ds: seq<byte>, last: byte)
    requires IsStart(start) && Stands(st, reports, start, ds) && !IsStart(last)
    ensures var (st', reports') := Step(st, last); Stands(st', reports', start, ds + [last])
  {
    hide Wrap, Payload, Following, Digit;
    var n := Number(Payload(start), ds);
    assert (ds + [last])[..|ds|] == ds;
    assert Number(Payload(start), ds + [last]) == n * 0x80 + Digit(last);
    WrapStep(n, Digit(last));
  }

  lemma StepOfLast(st: State, s: seq<byte>)
    requires s != []
    ensures Step(After(st, s[..|s| - 1]), s[|s| - 1]) == (After(st, s), Reports(st, s))
  {
    hide Step;
  }

  /** The last starting byte of the stream is at j. */
  lemma {:induction false} SinceLastStart(st: State, s: seq<byte>, j: nat)
    requires j < |s| && IsStart(s[j]) && AllContinuation(s[j + 1..])
    ensures Stands(After(st, s), Reports(st, s), s[j], s[j + 1..])
    decreases |s|
  {
    hide After, Reports, Step, Stands, IsStart;
    var front, last := s[..|s| - 1], s[|s| - 1];
    StepOfLast(st, s);
    if j + 1 == |s| {
      assert s[j + 1..] == [];
      StandsAtStart(After(st, front), last);
    } else {
      assert s[j + 1..] == front[j + 1..] + [last];
      assert s[j + 1..][|s| - j - 2] == last;
      assert front[j + 1..] == s[j + 1..][..|s| - j - 2];
      SinceLastStart(st, front, j);
      StandsAfter(After(st, front), Reports(st, front), s[j], front[j + 1..], last);
    }
  }

  lemma {:induction false} NothingWithoutStart(s: seq<byte>)
    requires AllContinuation(s)
    ensures After(INITIAL, s) == INITIAL && !Reports(INITIAL, s)
  {
    if s != [] {
      NothingWithoutStart(s[..|s| - 1]);
    }
  }

  lemma {:induction false} LastStart(s: seq<byte>) returns (j: nat)
    requires !AllContinuation(s)
    ensures j < |s| && IsStart(s[j]) && AllContinuation(s[j + 1..])
  {
    var front, last := s[..|s| - 1], s[|s| - 1];
    if IsStart(last) {
      j := |s| - 1;
    } else {
      j := LastStart(front);
      assert s[j + 1..] == front[j + 1..] + [last];
    }
  }

  /** The batch decoder, started at position j, consumes exactly the rest of the stream. */
  predicate DecodesFrom(s: seq<byte>, j: nat) {
    j < |s| && Decode(s[j..]).Decoded? && Decode(s[j..]).size == |s| - j
  }

  /**
   * For every stream: the incremental decoder reports a value with the last byte exactly when the
   * batch decoder, started somewhere, consumes exactly the bytes up to the end.
   */
  lemma IncrementalIsBatch(s: seq<byte>)
    ensures Reports(INITIAL, s) <==> exists j :: DecodesFrom(s, j)
  {
    if Reports(INITIAL, s) {
      if AllContinuation(s) {
        NothingWithoutStart(s);
      }
      var j := LastStart(s);
      SinceLastStart(INITIAL, s, j);
      DecodeComplete(s[j], s[j + 1..], []);
      assert [s[j]] + s[j + 1..] + [] == s[j..];
      assert DecodesFrom(s, j);
    }
    if j :| DecodesFrom(s, j) {
      IncrementalAgrees(INITIAL, s, j);
    }
  }

  /** ... and, whatever state the stream was started in, both then agree on value and overlong count. */
  lemma IncrementalAgrees(st: State, s: seq<byte>, j: nat)
    requires DecodesFrom(s, j)
    ensures Reports(st, s)
    ensures Decode(s[j..]).value == After(st, s).value && Decode(s[j..]).overlong == OverlongOf(After(st, s))
  {
    hide After, Reports, Decode, Number, Wrap, CompactSize, Payload, Following;
    var ds := s[j + 1..];
    assert s[j..][1..|s| - j] == ds;
    DecodedShape(s[j..]);
    SinceLastStart(st, s, j);
    CompactIsShortest(Payload(s[j]), ds);
  }

  /** Where the decoder stands after an encoding, whatever state it was in before. */
  lemma AfterEncoding(st: State, v: uint32, k: nat)
    requires Encodable(v, k)
    ensures var e := Encoding(v, k);
            Reports(st, e) && After(st, e) == State(v, 0, |e|) && OverlongOf(After(st, e)) == k
  {
    hide After, Reports, Encoding, Decode, OverlongOf, CompactSize, Number, Wrap, Payload, Following, IsStart;
    var e := Encoding(v, k);
    DecodeOfEncoding(v, k, []);
    assert e + [] == e == e[0..];
    IncrementalAgrees(st, e, 0);
    DecodedShape(e);
    SinceLastStart(st, e, 0);
  }

  /** Nothing is reported before its last byte. */
  lemma NotEarlier(st: State, v: uint32, k: nat, i: nat)
    requires Encodable(v, k) && 0 < i < |Encoding(v, k)|
    ensures !Reports(st, Encoding(v, k)[..i])
  {
    hide After, Reports, Encoding, Decode, CompactSize, Number, Wrap, Payload, Following, IsStart;
    var e := Encoding(v, k);
    var ds := e[1..];
    DecodeOfEncoding(v, k, []);
    assert e + [] == e;
    DecodedShape(e);
    assert e[..i][1..] == ds[..i - 1];
    PartOfContinuation(ds, i - 1);
    SinceLastStart(st, e[..i], 0);
  }

  lemma PartOfContinuation(ds: seq<byte>, n: nat)
    requires AllContinuation(ds) && n <= |ds|
    ensures AllContinuation(ds[..n])
  {
  }

  /**
   * An encoding resynchronises the decoder from any state: nothing is reported before its last
   * byte, and with that byte its value and overlong count are.
   */
  lemma Resynchronises(st: State, v: uint32, k: nat)
    requires Encodable(v, k)
    ensures var e := Encoding(v, k);
            && Reports(st, e) && After(st, e) == State(v, 0, |e|) && OverlongOf(After(st, e)) == k
            && forall i :: 0 < i < |e| ==> !Reports(st, e[..i])
  {
    hide After, Reports, Encoding, OverlongOf;
    AfterEncoding(st, v, k);
    forall i | 0 < i < |Encoding(v, k)|
      ensures !Reports(st, Encoding(v, k)[..i])
    {
      NotEarlier(st, v, k, i);
    }
  }

  /** So behind any garbage, an encoding is reported with its last byte and not before. */
  lemma ReportedBehindGarbage(garbage: seq<byte>, v: uint32, k: nat)
    requires Encodable(v, k)
    ensures var s := garbage + Encoding(v, k);
            && Reports(INITIAL, s) && After(INITIAL, s).value == v && OverlongOf(After(INITIAL, s)) == k
            && forall i :: |garbage| < i < |s| ==> !Reports(INITIAL, s[..i])
  {
    hide After, Reports, Encoding, OverlongOf;
    var e, st := Encoding(v, k), After(INITIAL, garbage);
    Resynchronises(st, v, k);
    AfterConcat(INITIAL, garbage, e);
    forall i | |garbage| < i < |garbage + e|
      ensures !Reports(INITIAL, (garbage + e)[..i])
    {
      var part := e[..i - |garbage|];
      assert (garbage + e)[..i] == garbage + part;
      AfterConcat(INITIAL, garbage, part);
    }
  }
}
