/**
 * The variable-length integer encoding: a batch encoder and decoder over memory, and an
 * incremental decoder that is fed byte by byte.
 */
module Varuint {
  import opened Bits
  import opened Machine

  datatype Marker = Marker(mask: bv8, pattern: bv8)

  /** Marker prefixes of the starting byte, by total length minus one; the last one is a sentinel. */
  const MARKERS: seq<Marker> := [
    Marker(0xC0, 0x00),
    Marker(0xE0, 0x40),
    Marker(0xF0, 0x60),
    Marker(0xF8, 0x70),
    Marker(0xFC, 0x78),
    Marker(0xFE, 0x7C),
    Marker(0xFF, 0x7E),
    Marker(0xFF, 0x7F),
    Marker(0x00, 0x00)
  ]

  /** The longest encoding the marker table can announce. */
  const MAX_SIZE: nat := 8

  const THRESHOLDS: seq<nat> := [0x40, 0x1000, 0x4_0000, 0x100_0000, 0x4000_0000]

  // ----------------------------------------------------------------------------------------
  // Sizes
  // ----------------------------------------------------------------------------------------

  /** Number of bytes of the compact representation. */
  function CompactSize(v: uint32): (n: nat)
    ensures 1 <= n <= 6
  {
    if v < 0x40 then 1
    else if v < 0x1000 then 2
    else if v < 0x4_0000 then 3
    else if v < 0x100_0000 then 4
    else if v < 0x4000_0000 then 5
    else 6
  }

  lemma CompactSizeAt(v: uint32, i: nat)
    requires i < 5
    ensures v < THRESHOLDS[i] <==> CompactSize(v) <= i + 1
  {
  }

  /** The size is computed in a byte, so a very large overlong count wraps around. */
  method SizeOverlong(value: uint32, overlong: byte) returns (size: byte)
    ensures size == (CompactSize(value) + overlong) % 0x100
  {
    for i := 0 to |THRESHOLDS|
      invariant i < CompactSize(value)
    {
      CompactSizeAt(value, i);
      if value < THRESHOLDS[i] {
        return (i + overlong + 1) % 0x100;
      }
    }
    return (|THRESHOLDS| + overlong + 1) % 0x100;
  }

  method Size(value: uint32) returns (size: byte)
    ensures size == CompactSize(value)
  {
    size := SizeOverlong(value, 0);
  }

  // ----------------------------------------------------------------------------------------
  // Starting bytes and continuation bytes
  // ----------------------------------------------------------------------------------------

  /** A clear top bit starts a varuint, a set top bit continues one. */
  predicate IsStart(ch: byte) {
    ch < 0x80
  }

  /** Number of distinct payloads of a starting byte that is followed by m continuation bytes. */
  function Room(m: nat): nat
    requires m < MAX_SIZE
  {
    [64, 32, 16, 8, 4, 2, 1, 1][m]
  }

  /** The smallest starting byte that is followed by m continuation bytes. */
  function Base(m: nat): nat
    requires m < MAX_SIZE
  {
    [0x00, 0x40, 0x60, 0x70, 0x78, 0x7C, 0x7E, 0x7F][m]
  }

  /** Number of continuation bytes that a starting byte announces. */
  function Following(ch: byte): (m: nat)
    requires IsStart(ch)
    ensures m < MAX_SIZE && Base(m) <= ch < Base(m) + Room(m)
  {
    if ch < 0x40 then 0
    else if ch < 0x60 then 1
    else if ch < 0x70 then 2
    else if ch < 0x78 then 3
    else if ch < 0x7C then 4
    else if ch < 0x7E then 5
    else if ch < 0x7F then 6
    else 7
  }

  /** The payload a starting byte carries. */
  function Payload(ch: byte): (d: nat)
    requires IsStart(ch)
    ensures d < Room(Following(ch))
  {
    ch - Base(Following(ch))
  }

  /** The starting byte with m continuation bytes to come and payload d. */
  function Start(m: nat, d: nat): (ch: byte)
    requires m < MAX_SIZE && d < Room(m)
    ensures IsStart(ch) && Following(ch) == m && Payload(ch) == d
  {
    Base(m) + d
  }

  /** The digit a continuation byte carries. */
  function Digit(ch: byte): (d: nat)
    ensures d < 0x80
  {
    if ch < 0x80 then ch else ch - 0x80
  }

  /** The continuation byte that carries a digit. */
  function Continuation(d: nat): (ch: byte)
    requires d < 0x80
    ensures !IsStart(ch) && Digit(ch) == d
  {
    0x80 + d
  }

  // The bit patterns of the marker table mean exactly these ranges.

  predicate Matches(ch: byte, i: nat)
    requires i < |MARKERS|
  {
    (ch as bv8) & MARKERS[i].mask == MARKERS[i].pattern
  }

  lemma BitRanges(x: bv8)
    ensures x & 0x00 == 0x00
    ensures x & 0xC0 == 0x00 <==> (x as nat) < 0x40
    ensures x & 0x80 == 0x80 <==> (x as nat) >= 0x80
  {
  }

  lemma MatchesIsRange(ch: byte, i: nat)
    requires i < MAX_SIZE
    ensures Matches(ch, i) <==> Base(i) <= ch < Base(i) + Room(i)
  {
    AsBits(ch);
    MatchedBits(ch as bv8, i);
  }

  lemma MatchedBits(x: bv8, i: nat)
    requires i < MAX_SIZE
    ensures x & MARKERS[i].mask == MARKERS[i].pattern <==> Base(i) <= x as nat < Base(i) + Room(i)
  {
  }

  lemma SentinelMatches(ch: byte)
    ensures Matches(ch, MAX_SIZE)
  {
    BitRanges(ch as bv8);
  }

  /** The test of the top bit. */
  method TopBitSet(ch: byte) returns (b: bool)
    ensures b <==> !IsStart(ch)
  {
    AsBits(ch);
    BitRanges(ch as bv8);
    b := (ch as bv8) & 0x80 == 0x80;
  }

  /** The test of the top two bits. */
  method TopTwoBitsClear(ch: byte) returns (b: bool)
    ensures b <==> ch < 0x40
  {
    AsBits(ch);
    BitRanges(ch as bv8);
    b := (ch as bv8) & 0xC0 == 0;
  }

  /** The scan of the marker table; it ends at the sentinel only for continuation bytes. */
  method FindMarker(ch: byte) returns (i: nat)
    ensures i < |MARKERS|
    ensures IsStart(ch) <==> i < MAX_SIZE
    ensures IsStart(ch) ==> i == Following(ch)
  {
    i := 0;
    while !Matches(ch, i)
      invariant i < |MARKERS|
      invariant i < MAX_SIZE ==> Base(i) <= ch
      invariant i == MAX_SIZE ==> !IsStart(ch)
      decreases |MARKERS| - i
    {
      SentinelMatches(ch);
      MatchesIsRange(ch, i);
      i := i + 1;
    }
    if i < MAX_SIZE {
      MatchesIsRange(ch, i);
    }
  }

  /** The bits of a starting byte that the marker leaves free. */
  method MaskPayload(ch: byte, i: nat) returns (d: nat)
    requires IsStart(ch) && i == Following(ch)
    ensures d == Payload(ch)
  {
    AsBits(ch);
    MaskedBits(ch as bv8, i);
    d := ((ch as bv8) & !MARKERS[i].mask) as nat;
  }

  lemma MaskedBits(x: bv8, i: nat)
    requires i < MAX_SIZE && Base(i) <= x as nat < Base(i) + Room(i)
    ensures (x & !MARKERS[i].mask) as nat == x as nat - Base(i)
  {
  }

  /** The continuation byte that holds the low seven bits of a value. */
  method LowSevenBits(value: uint32) returns (ch: byte)
    ensures ch == Continuation(value % 0x80)
  {
    var low := value % 0x80;
    AsBits(low);
    SetTopBit(low as bv8);
    ch := (0x80 | (low as bv8)) as nat;
  }

  method LowSixBits(value: uint32) returns (ch: byte)
    ensures value < 0x40 ==> ch == value
  {
    ch := value % 0x40;
  }

  /** Shifts a digit into a 32-bit register. */
  method ShiftIn(value: uint32, ch: byte) returns (r: uint32)
    requires !IsStart(ch)
    ensures r == Wrap(value * 0x80 + Digit(ch))
  {
    AsBits(ch);
    ClearTopBit(ch as bv8);
    r := (value * 0x80 + ((ch as bv8) & 0x7F) as nat) % 0x1_0000_0000;
  }

  lemma ClearTopBit(x: bv8)
    requires x as nat >= 0x80
    ensures (x & 0x7F) as nat == x as nat - 0x80
  {
  }

  lemma SetTopBit(x: bv8)
    requires x as nat < 0x80
    ensures (0x80 | x) as nat == 0x80 + x as nat
  {
  }

  /** Replaces the top bits of a byte by a length marker. */
  method StampMarker(ch: byte, m: nat) returns (r: byte)
    requires m < MAX_SIZE && !IsStart(ch) && Digit(ch) < Room(m)
    ensures r == Start(m, Digit(ch))
  {
    hide Stamped, Room, Base;
    AsBits(ch);
    StampedBits(ch as bv8, m);
    r := Stamped(ch as bv8, m) as nat;
  }

  function Stamped(x: bv8, m: nat): bv8
    requires m < MAX_SIZE
  {
    (x & !MARKERS[m].mask) | MARKERS[m].pattern
  }

  lemma StampedBits(x: bv8, m: nat)
    requires m < MAX_SIZE && 0x80 <= x as nat < 0x80 + Room(m)
    ensures Stamped(x, m) as nat == Base(m) + (x as nat - 0x80)
  {
  }

  // ----------------------------------------------------------------------------------------
  // Base-128 digits
  // ----------------------------------------------------------------------------------------

  ghost predicate AllContinuation(ds: seq<byte>) {
    forall i :: 0 <= i < |ds| ==> !IsStart(ds[i])
  }

  /** The m least significant base-128 digits of v as continuation bytes, most significant first. */
  function Digits(v: nat, m: nat): (ds: seq<byte>)
    ensures |ds| == m && AllContinuation(ds)
  {
    if m == 0 then [] else Digits(v / 0x80, m - 1) + [Continuation(v % 0x80)]
  }

  /** What is left of v above its m least significant digits. */
  function Top(v: nat, m: nat): nat {
    if m == 0 then v else Top(v / 0x80, m - 1)
  }

  /** The number made of the leading value a and the given digits. */
  function Number(a: nat, ds: seq<byte>): nat {
    if ds == [] then a else Number(a, ds[..|ds| - 1]) * 0x80 + Digit(ds[|ds| - 1])
  }

  lemma {:induction false} NumberOfDigits(v: nat, m: nat)
    ensures Number(Top(v, m), Digits(v, m)) == v
  {
    hide Number, Continuation, Digit;
    if m == 0 {
      NumberOfNone(v);
    } else {
      var q, d := v / 0x80, v % 0x80;
      NumberOfDigits(q, m - 1);
      NumberSnoc(Top(q, m - 1), Digits(q, m - 1), Continuation(d));
      assert Digits(v, m) == Digits(q, m - 1) + [Continuation(d)];
      DigitOfContinuation(d);
    }
  }

  lemma NumberOfNone(a: nat)
    ensures Number(a, []) == a
  {
  }

  lemma NumberSnoc(a: nat, ds: seq<byte>, ch: byte)
    ensures Number(a, ds + [ch]) == Number(a, ds) * 0x80 + Digit(ch)
  {
    assert (ds + [ch])[..|ds|] == ds;
  }

  lemma DigitOfContinuation(d: nat)
    requires d < 0x80
    ensures !IsStart(Continuation(d)) && Digit(Continuation(d)) == d
  {
  }

  lemma {:induction false} DigitsOfNumber(a: nat, ds: seq<byte>)
    requires AllContinuation(ds)
    ensures Top(Number(a, ds), |ds|) == a && Digits(Number(a, ds), |ds|) == ds
  {
    if ds == [] {
    } else {
      var front, d := ds[..|ds| - 1], ds[|ds| - 1];
      DigitsOfNumber(a, front);
      assert Number(a, ds) / 0x80 == Number(a, front) && Number(a, ds) % 0x80 == Digit(d);
      assert ds == front + [d];
    }
  }

  lemma {:induction false} DigitsHead(v: nat, m: nat)
    requires Top(v, m) < 0x80
    ensures Digits(v, m + 1) == [Continuation(Top(v, m))] + Digits(v, m)
  {
    if m == 0 {
      assert Digits(v / 0x80, 0) == [];
    } else {
      DigitsHead(v / 0x80, m - 1);
    }
  }

  function Pow128(m: nat): (p: nat)
    ensures p > 0
  {
    if m == 0 then 1 else 0x80 * Pow128(m - 1)
  }

  lemma Pow128Table()
    ensures Pow128(0) == 1 && Pow128(1) == 0x80 && Pow128(2) == 0x4000
    ensures Pow128(3) == 0x20_0000 && Pow128(4) == 0x1000_0000 && Pow128(5) == 0x8_0000_0000
  {
    assert Pow128(1) == 0x80 * Pow128(0);
    assert Pow128(2) == 0x80 * Pow128(1);
    assert Pow128(3) == 0x80 * Pow128(2);
    assert Pow128(4) == 0x80 * Pow128(3);
    assert Pow128(5) == 0x80 * Pow128(4);
  }

  lemma {:induction false} NumberBound(a: nat, ds: seq<byte>)
    ensures Number(a, ds) < (a + 1) * Pow128(|ds|)
  {
    if ds == [] {
    } else {
      var front := ds[..|ds| - 1];
      NumberBound(a, front);
      var p := Pow128(|front|);
      assert Number(a, ds) < (Number(a, front) + 1) * 0x80;
      assert (a + 1) * (0x80 * p) == ((a + 1) * p) * 0x80;
    }
  }

  /** The number carried by at most five bytes is below the threshold of that many bytes. */
  lemma NumberFits(a: nat, ds: seq<byte>)
    requires |ds| < 5 && a < Room(|ds|)
    ensures Number(a, ds) < THRESHOLDS[|ds|] < 0x1_0000_0000
  {
    var m := |ds|;
    NumberBound(a, ds);
    Pow128Table();
    var r := Room(m);
    assert (a + 1) * Pow128(m) <= r * Pow128(m);
    assert r * Pow128(m) == THRESHOLDS[m];
  }

  /** A number is never longer than the bytes it was read from. */
  lemma CompactIsShortest(a: nat, ds: seq<byte>)
    requires |ds| < MAX_SIZE && a < Room(|ds|)
    ensures CompactSize(Wrap(Number(a, ds))) <= |ds| + 1
  {
    if |ds| < 5 {
      NumberFits(a, ds);
      WrapSmall(Number(a, ds));
      CompactSizeAt(Number(a, ds), |ds|);
    }
  }

  lemma TopIsQuotient(v: uint32, m: nat)
    requires m < MAX_SIZE
    ensures Top(v, m) ==
            v / [1, 0x80, 0x4000, 0x20_0000, 0x1000_0000, 0x8_0000_0000, 0x400_0000_0000, 0x2_0000_0000_0000][m]
  {
    if m == 0 {
    } else {
      TopIsQuotient(v / 0x80, m - 1);
    }
  }

  /** A value of n bytes leaves a leading digit that fits into the starting byte. */
  lemma TopFits(v: uint32, n: nat)
    requires CompactSize(v) <= n <= MAX_SIZE
    ensures Top(v, n - 1) < Room(n - 1) <= 0x40
  {
    if n <= 5 {
      CompactSizeAt(v, n - 1);
    }
    TopIsQuotient(v, n - 1);
  }

  /** Shifting in a digit and wrapping around can be done in either order. */
  lemma WrapStep(n: nat, d: nat)
    ensures Wrap(Wrap(n) * 0x80 + d) == Wrap(n * 0x80 + d)
  {
    var q := n / 0x1_0000_0000;
    assert n * 0x80 + d == (Wrap(n) * 0x80 + d) + 0x1_0000_0000 * (q * 0x80);
    WrapMultiple(Wrap(n) * 0x80 + d, q * 0x80);
  }

  // ----------------------------------------------------------------------------------------
  // Encoding
  // ----------------------------------------------------------------------------------------

  predicate Encodable(v: uint32, k: nat) {
    CompactSize(v) + k <= MAX_SIZE
  }

  /** The k-th overlong representation of v. */
  function Encoding(v: uint32, k: nat): (s: seq<byte>)
    requires Encodable(v, k)
    ensures |s| == CompactSize(v) + k
  {
    var m := CompactSize(v) + k - 1;
    TopFits(v, m + 1);
    [Start(m, Top(v, m))] + Digits(v, m)
  }

  /** Fills size bytes with the digits of the value, from the last one backwards. */
  method WriteDigits(buf: array<byte>, off: nat, size: nat, value: uint32)
    requires off + size <= buf.Length
    modifies buf
    ensures buf[..] == Splice(old(buf[..]), off, Digits(value, size))
  {
    var v, i := value, size;
    while i > 0
      invariant 0 <= i <= size
      invariant buf[..off] == old(buf[..off]) && buf[off + size..] == old(buf[off + size..])
      invariant Digits(value, size) == Digits(v, i) + buf[off + i..off + size]
    {
      ghost var done := buf[off + i..off + size];
      i := i - 1;
      var low := LowSevenBits(v);
      buf[off + i] := low;
      assert buf[off + i..off + size] == [low] + done;
      v := v / 0x80;
    }
    assert buf[..] == buf[..off] + buf[off..off + size] + buf[off + size..];
  }

  method EncodeOverlong(buf: array<byte>, off: nat, value: uint32, overlong: byte) returns (next: nat)
    requires Encodable(value, overlong)
    requires off + CompactSize(value) + overlong <= buf.Length
    modifies buf
    ensures next == off + CompactSize(value) + overlong
    ensures buf[..] == Splice(old(buf[..]), off, Encoding(value, overlong))
  {
    hide Splice, Encoding, Digits, CompactSize, Start;
    var size := SizeOverlong(value, overlong);
    assert size == CompactSize(value) + overlong;
    if size == 1 {
      ShortEncoding(value);
      var low := LowSixBits(value);
      buf[off] := low;
    } else {
      WriteDigits(buf, off, size, value);
      EncodingFromDigits(value, overlong);
      assert buf[off] == buf[off..off + size][0];
      var start := StampMarker(buf[off], size - 1);
      buf[off] := start;
      SpliceUpdate(old(buf[..]), off, Digits(value, size), 0, start);
    }
    next := off + size;
  }

  lemma ShortEncoding(v: uint32)
    requires CompactSize(v) == 1
    ensures v < 0x40 && Encoding(v, 0) == [v]
  {
    assert v < 0x40;
    assert Top(v, 0) == v && Start(0, v) == v && Digits(v, 0) == [];
  }

  /** An encoding consists of its digits, the first of them replaced by the starting byte. */
  lemma EncodingFromDigits(v: uint32, k: nat)
    requires Encodable(v, k)
    ensures var n := CompactSize(v) + k; var ds := Digits(v, n);
            Digit(ds[0]) < Room(n - 1) && Encoding(v, k) == ds[0 := Start(n - 1, Digit(ds[0]))]
  {
    hide Digits, Top;
    var m := CompactSize(v) + k - 1;
    TopFits(v, m + 1);
    DigitsHead(v, m);
    assert Digits(v, m + 1)[0] == Continuation(Top(v, m));
    assert Digits(v, m + 1)[1..] == Digits(v, m);
  }

  method Encode(buf: array<byte>, off: nat, value: uint32) returns (next: nat)
    requires off + CompactSize(value) <= buf.Length
    modifies buf
    ensures next == off + CompactSize(value)
    ensures buf[..] == Splice(old(buf[..]), off, Encoding(value, 0))
  {
    next := EncodeOverlong(buf, off, value, 0);
  }

  // ----------------------------------------------------------------------------------------
  // Decoding
  // ----------------------------------------------------------------------------------------

  /**
   * Outcome of decoding at the start of some memory. Malformed leaves the read position intact;
   * Overrun means that the decoder would look beyond the memory.
   */
  datatype Decoded =
    | Decoded(value: uint32, overlong: nat, size: nat)
    | Malformed
    | Overrun

  /** Length of the longest prefix of continuation bytes, but at most limit. */
  function ContinuationCount(s: seq<byte>, limit: nat): (n: nat)
    ensures n <= |s| && n <= limit && AllContinuation(s[..n])
    ensures n < limit && n < |s| ==> IsStart(s[n])
  {
    if s == [] || limit == 0 || IsStart(s[0]) then 0 else 1 + ContinuationCount(s[1..], limit - 1)
  }

  lemma {:induction false} ContinuationCountIs(s: seq<byte>, limit: nat, n: nat)
    requires n <= |s| && n <= limit && AllContinuation(s[..n])
    requires n == limit || n == |s| || IsStart(s[n])
    ensures ContinuationCount(s, limit) == n
  {
    if n > 0 {
      assert !IsStart(s[..n][0]);
      assert s[1..][..n - 1] == s[..n][1..];
      ContinuationCountIs(s[1..], limit - 1, n - 1);
    }
  }

  /** The value and overlong count of a complete representation: a start and its continuation. */
  function Complete(start: byte, ds: seq<byte>): Decoded
    requires IsStart(start) && Following(start) == |ds|
  {
    var v := Wrap(Number(Payload(start), ds));
    CompactIsShortest(Payload(start), ds);
    Decoded(v, |ds| + 1 - CompactSize(v), |ds| + 1)
  }

  /** What the batch decoder finds at the start of s. */
  function Decode(s: seq<byte>): (r: Decoded)
    ensures r.Decoded? ==> 1 <= r.size <= |s| && r.size <= MAX_SIZE && IsStart(s[0])
  {
    if s == [] then Overrun
    else if !IsStart(s[0]) then Malformed
    else
      var m := Following(s[0]);
      var c := ContinuationCount(s[1..], m);
      if c == m then Complete(s[0], s[1..m + 1])
      else if c + 1 == |s| then Overrun
      else Malformed
  }

  /** A starting byte and all the continuation bytes it announces decode as a whole. */
  lemma DecodeComplete(start: byte, ds: seq<byte>, tail: seq<byte>)
    requires IsStart(start) && Following(start) == |ds| && AllContinuation(ds)
    ensures Decode([start] + ds + tail) == Complete(start, ds)
  {
    var s := [start] + ds + tail;
    assert s[1..][..|ds|] == ds == s[1..|ds| + 1];
    ContinuationCountIs(s[1..], |ds|, |ds|);
  }

  /** Every decodable prefix has that shape. */
  lemma DecodedShape(s: seq<byte>)
    requires Decode(s).Decoded?
    ensures var r := Decode(s); var ds := s[1..r.size];
            Following(s[0]) == |ds| && r == Complete(s[0], ds) && AllContinuation(ds)
  {
    var m := Following(s[0]);
    assert s[1..][..m] == s[1..m + 1];
  }

  /** A start that is followed too early by another start is malformed. */
  lemma DecodeInterrupted(s: seq<byte>, i: nat)
    requires 1 <= i < |s| && IsStart(s[0]) && IsStart(s[i]) && i <= Following(s[0]) && AllContinuation(s[1..i])
    ensures Decode(s) == Malformed
  {
    assert s[1..][..i - 1] == s[1..i];
    ContinuationCountIs(s[1..], Following(s[0]), i - 1);
  }

  /** A start whose continuation is cut off by the end of the memory. */
  lemma DecodeCutOff(s: seq<byte>)
    requires s != [] && IsStart(s[0]) && |s| <= Following(s[0]) && AllContinuation(s[1..])
    ensures Decode(s) == Overrun
  {
    assert s[1..][..|s| - 1] == s[1..];
    ContinuationCountIs(s[1..], Following(s[0]), |s| - 1);
  }

  /**
   * When decoding succeeds, when it fails, and when it would go beyond the end: a first byte below
   * 128 announces a number of bytes of at least 128 to come; anything else there is malformed.
   */
  lemma DecodeOutcome(s: seq<byte>)
    ensures Decode(s).Decoded? <==>
            s != [] && s[0] < 128 && Following(s[0]) < |s| && forall i :: 1 <= i <= Following(s[0]) ==> s[i] >= 128
    ensures Decode(s).Malformed? <==>
            s != [] && (s[0] >= 128 || exists i :: 1 <= i < |s| && i <= Following(s[0]) && s[i] < 128)
  {
    if s != [] && s[0] < 128 {
      var c := ContinuationCount(s[1..], Following(s[0]));
      assert forall i :: 1 <= i <= c ==> s[i] == s[1..][..c][i - 1];
      if c < Following(s[0]) && c + 1 < |s| {
        assert s[c + 1] < 128;
      }
    }
  }

  /** One more continuation byte shifts one more digit in. */
  lemma NumberGrows(a: nat, s: seq<byte>, i: nat)
    requires 1 <= i < |s| && AllContinuation(s[1..i]) && !IsStart(s[i])
    ensures AllContinuation(s[1..i + 1])
    ensures Wrap(Number(a, s[1..i + 1])) == Wrap(Wrap(Number(a, s[1..i])) * 0x80 + Digit(s[i]))
  {
    assert s[1..i + 1] == s[1..i] + [s[i]];
    WrapStep(Number(a, s[1..i]), Digit(s[i]));
  }

  lemma NumberOfNothing(a: nat)
    requires a < 0x80
    ensures Wrap(Number(a, [])) == a
  {
  }

  /** The continuation bytes read one by one; none of them may be missing. */
  method ReadContinuation(buf: array<byte>, off: nat, size: nat, start: nat) returns (complete: bool, result: uint32)
    requires off < buf.Length && IsStart(buf[off]) && Following(buf[off]) + 1 == size
    requires start < 0x80 && !Decode(buf[off..]).Overrun?
    ensures !complete ==> Decode(buf[off..]) == Malformed
    ensures complete ==> off + size <= buf.Length && AllContinuation(buf[off + 1..off + size])
    ensures complete ==> result == Wrap(Number(start, buf[off + 1..off + size]))
  {
    hide Number, Wrap, Decode, Following, Digit;
    ghost var s := buf[off..];
    result := start;
    var i := 1;
    assert s[1..1] == [];
    NumberOfNothing(start);
    while i < size
      invariant 1 <= i <= size && off + i <= buf.Length
      invariant AllContinuation(s[1..i])
      invariant result == Wrap(Number(start, s[1..i]))
    {
      if off + i == buf.Length {
        assert s[1..i] == s[1..];
        DecodeCutOff(s);
      }
      assert buf[off + i] == s[i];
      var continues := TopBitSet(buf[off + i]);
      if !continues {
        DecodeInterrupted(s, i);
        return false, result;
      }
      NumberGrows(start, s, i);
      result := ShiftIn(result, buf[off + i]);
      i := i + 1;
    }
    assert s[1..size] == buf[off + 1..off + size];
    complete := true;
  }

  lemma DecodeNoStart(s: seq<byte>)
    requires s != [] && !IsStart(s[0])
    ensures Decode(s) == Malformed
  {
  }

  lemma CompleteShort(ch: byte)
    requires ch < 0x40
    ensures IsStart(ch) && Following(ch) == 0 && Complete(ch, []) == Decoded(ch, 0, 1)
  {
  }

  method DecodeOverlong(buf: array<byte>, off: nat) returns (next: nat, r: Decoded)
    requires off < buf.Length && !Decode(buf[off..]).Overrun?
    ensures r == Decode(buf[off..])
    ensures next == if r.Decoded? then off + r.size else off
  {
    hide Decode, Number, Wrap, Digit, CompactSize, Payload, Following, AllContinuation;
    ghost var s := buf[off..];
    var top := TopBitSet(buf[off]);
    if top {
      DecodeNoStart(s);
      return off, Malformed;
    }
    var short := TopTwoBitsClear(buf[off]);
    if short {
      CompleteShort(buf[off]);
      DecodeComplete(buf[off], [], s[1..]);
      assert s == [buf[off]] + [] + s[1..];
      return off + 1, Decoded(buf[off], 0, 1);
    }
    var m := FindMarker(buf[off]);
    var start := MaskPayload(buf[off], m);
    var complete, result := ReadContinuation(buf, off, m + 1, start);
    if !complete {
      return off, Malformed;
    }
    assert s[1..m + 1] == buf[off + 1..off + m + 1];
    DecodeComplete(buf[off], s[1..m + 1], s[m + 1..]);
    assert s == [buf[off]] + s[1..m + 1] + s[m + 1..];
    CompactIsShortest(start, s[1..m + 1]);
    var compact := Size(result);
    return off + m + 1, Decoded(result, m + 1 - compact, m + 1);
  }

  // ----------------------------------------------------------------------------------------
  // The two directions undo each other
  // ----------------------------------------------------------------------------------------

  /** The documented format: the length in ones, then the digits, the most significant ones first. */
  lemma CompactLayout(v: uint32)
    ensures v < 0x40 ==> Encoding(v, 0) == [v]
    ensures 0x40 <= v < 0x1000 ==> Encoding(v, 0) == [0x40 + v / 0x80, 0x80 + v % 0x80]
    ensures 0x1000 <= v < 0x4_0000 ==>
              Encoding(v, 0) == [0x60 + v / 0x80 / 0x80, 0x80 + v / 0x80 % 0x80, 0x80 + v % 0x80]
    ensures 0x4_0000 <= v < 0x100_0000 ==>
              Encoding(v, 0) == [0x70 + v / 0x80 / 0x80 / 0x80, 0x80 + v / 0x80 / 0x80 % 0x80,
                                 0x80 + v / 0x80 % 0x80, 0x80 + v % 0x80]
    ensures 0x100_0000 <= v < 0x4000_0000 ==>
              Encoding(v, 0) == [0x78 + v / 0x80 / 0x80 / 0x80 / 0x80, 0x80 + v / 0x80 / 0x80 / 0x80 % 0x80,
                                 0x80 + v / 0x80 / 0x80 % 0x80, 0x80 + v / 0x80 % 0x80, 0x80 + v % 0x80]
    ensures 0x4000_0000 <= v ==>
              Encoding(v, 0) == [0x7C + v / 0x80 / 0x80 / 0x80 / 0x80 / 0x80,
                                 0x80 + v / 0x80 / 0x80 / 0x80 / 0x80 % 0x80, 0x80 + v / 0x80 / 0x80 / 0x80 % 0x80,
                                 0x80 + v / 0x80 / 0x80 % 0x80, 0x80 + v / 0x80 % 0x80, 0x80 + v % 0x80]
  {
    hide Encoding;
    ShortLayout(v);
    LongLayout(v);
  }

  lemma ShortLayout(v: uint32)
    ensures v < 0x40 ==> Encoding(v, 0) == [v]
    ensures 0x40 <= v < 0x1000 ==> Encoding(v, 0) == [0x40 + v / 0x80, 0x80 + v % 0x80]
    ensures 0x1000 <= v < 0x4_0000 ==>
              Encoding(v, 0) == [0x60 + v / 0x80 / 0x80, 0x80 + v / 0x80 % 0x80, 0x80 + v % 0x80]
  {
    hide Encoding, Digits, Top;
    LayoutOf(v, 0);
    NextDigit(v, 1);
    NoDigits(v);
    NoDigits(v / 0x80);
    TwoDigits(v);
  }

  lemma LongLayout(v: uint32)
    ensures 0x4_0000 <= v < 0x100_0000 ==>
              Encoding(v, 0) == [0x70 + v / 0x80 / 0x80 / 0x80, 0x80 + v / 0x80 / 0x80 % 0x80,
                                 0x80 + v / 0x80 % 0x80, 0x80 + v % 0x80]
    ensures 0x100_0000 <= v < 0x4000_0000 ==>
              Encoding(v, 0) == [0x78 + v / 0x80 / 0x80 / 0x80 / 0x80, 0x80 + v / 0x80 / 0x80 / 0x80 % 0x80,
                                 0x80 + v / 0x80 / 0x80 % 0x80, 0x80 + v / 0x80 % 0x80, 0x80 + v % 0x80]
    ensures 0x4000_0000 <= v ==>
              Encoding(v, 0) == [0x7C + v / 0x80 / 0x80 / 0x80 / 0x80 / 0x80,
                                 0x80 + v / 0x80 / 0x80 / 0x80 / 0x80 % 0x80, 0x80 + v / 0x80 / 0x80 / 0x80 % 0x80,
                                 0x80 + v / 0x80 / 0x80 % 0x80, 0x80 + v / 0x80 % 0x80, 0x80 + v % 0x80]
  {
    hide Encoding, Digits, Top;
    LayoutOf(v, 0);
    NextDigit(v, 3);
    TwoDigits(v / 0x80);
    if v >= 0x100_0000 {
      NextDigit(v / 0x80, 3);
      NextDigit(v, 4);
      TwoDigits(v / 0x80 / 0x80);
    }
    if v >= 0x4000_0000 {
      NextDigit(v, 5);
      NextDigit(v / 0x80, 4);
      NextDigit(v / 0x80 / 0x80, 3);
      TwoDigits(v / 0x80 / 0x80 / 0x80);
    }
  }

  /** The documented example, and the markers of the scintillator module. */
  lemma OverlongExamples(n: byte)
    requires n < 0x40
    ensures Encoding(n, 1) == [0x40, 0x80 + n] && Encoding(n, 2) == [0x60, 0x80, 0x80 + n]
    ensures Encoding(42, 1) == [0x40, 0xAA]
  {
    hide Encoding, Digits, Top;
    LayoutOf(n, 1);
    LayoutOf(42, 1);
    LayoutOf(n, 2);
    NextDigit(n, 1);
    NextDigit(42, 1);
    TwoDigits(n);
    NoDigits(0);
  }

  lemma LayoutOf(v: uint32, k: nat)
    requires Encodable(v, k)
    ensures var m := CompactSize(v) + k - 1;
            Top(v, m) < Room(m) && Encoding(v, k) == [Base(m) + Top(v, m)] + Digits(v, m)
    ensures Digits(v, 0) == [] && Top(v, 0) == v
  {
    TopFits(v, CompactSize(v) + k);
  }

  lemma NoDigits(v: nat)
    ensures Digits(v, 0) == [] && Top(v, 0) == v
  {
  }

  lemma NextDigit(v: nat, m: nat)
    requires m > 0
    ensures Digits(v, m) == Digits(v / 0x80, m - 1) + [0x80 + v % 0x80] && Top(v, m) == Top(v / 0x80, m - 1)
  {
  }

  lemma TwoDigits(v: nat)
    ensures Digits(v, 2) == [0x80 + v / 0x80 % 0x80, 0x80 + v % 0x80] && Top(v, 2) == v / 0x80 / 0x80
  {
    hide Digits, Top;
    NextDigit(v, 2);
    NextDigit(v / 0x80, 1);
    NoDigits(v / 0x80 / 0x80);
  }

  /** Decoding an encoding, whatever follows it, gives the value, the overlong count and the length. */
  lemma DecodeOfEncoding(v: uint32, k: nat, tail: seq<byte>)
    requires Encodable(v, k)
    ensures Decode(Encoding(v, k) + tail) == Decoded(v, k, CompactSize(v) + k)
  {
    var m := CompactSize(v) + k - 1;
    TopFits(v, m + 1);
    var start := Start(m, Top(v, m));
    NumberOfDigits(v, m);
    WrapSmall(v);
    assert Complete(start, Digits(v, m)) == Decoded(v, k, m + 1);
    DecodeComplete(start, Digits(v, m), tail);
  }

  /** The number carried by a decodable prefix before it is cut to 32 bits. */
  function Carried(s: seq<byte>): nat
    requires Decode(s).Decoded?
  {
    Number(Payload(s[0]), s[1..Decode(s).size])
  }

  /** Re-encoding what was decoded restores the bytes exactly when no bits were cut off. */
  lemma EncodingOfDecode(s: seq<byte>)
    requires Decode(s).Decoded?
    ensures var r := Decode(s);
            Encodable(r.value, r.overlong) &&
            (Encoding(r.value, r.overlong) == s[..r.size] <==> Carried(s) < 0x1_0000_0000)
  {
    var r := Decode(s);
    var ds := s[1..r.size];
    DecodedShape(s);
    assert s[..r.size] == [s[0]] + ds;
    if Carried(s) < 0x1_0000_0000 {
      WrapSmall(Carried(s));
      DigitsOfNumber(Payload(s[0]), ds);
    } else {
      EncodingCarriesItsValue(r.value, r.overlong);
      assert s[..r.size][1..] == ds;
    }
  }

  lemma EncodingCarriesItsValue(v: uint32, k: nat)
    requires Encodable(v, k)
    ensures IsStart(Encoding(v, k)[0]) && Number(Payload(Encoding(v, k)[0]), Encoding(v, k)[1..]) == v
  {
    var m := CompactSize(v) + k - 1;
    TopFits(v, m + 1);
    NumberOfDigits(v, m);
  }

  /** At most five bytes never carry more than 30 bits, so those always re-encode to themselves. */
  lemma ShortFormsReencode(s: seq<byte>)
    requires Decode(s).Decoded? && Decode(s).size <= 5
    ensures var r := Decode(s); Encodable(r.value, r.overlong) && Encoding(r.value, r.overlong) == s[..r.size]
  {
    DecodedShape(s);
    NumberFits(Payload(s[0]), s[1..Decode(s).size]);
    EncodingOfDecode(s);
  }

  lemma {:induction false} NumberOfZeros(a: nat, ds: seq<byte>)
    requires forall i :: 0 <= i < |ds| ==> ds[i] == 0x80
    ensures Number(a, ds) == a * Pow128(|ds|)
  {
    if ds != [] {
      NumberOfZeros(a, ds[..|ds| - 1]);
      assert a * Pow128(|ds|) == a * Pow128(|ds| - 1) * 0x80;
    }
  }

  /** Six bytes can carry 36 bits: these decode to a value whose encoding is different. */
  lemma LongFormLosesBits()
    ensures var s := [0x7D, 0x80, 0x80, 0x80, 0x80, 0x80];
            Decode(s) == Decoded(0, 5, 6) && Encoding(0, 5) != s
  {
    var ds: seq<byte> := [0x80, 0x80, 0x80, 0x80, 0x80];
    DecodeComplete(0x7D, ds, []);
    NumberOfZeros(1, ds);
    Pow128Table();
    var s := [0x7D] + ds + [];
    assert s == [0x7D, 0x80, 0x80, 0x80, 0x80, 0x80];
    assert Complete(0x7D, ds) == Decoded(0, 5, 6);
    assert s[1..6] == ds;
    EncodingOfDecode(s);
  }

  /** No encoding is a prefix of another one. */
  lemma PrefixFree(v: uint32, k: nat, v': uint32, k': nat)
    requires Encodable(v, k) && Encodable(v', k')
    requires Encoding(v, k) <= Encoding(v', k')
    ensures v == v' && k == k'
  {
    hide Encoding, Decode;
    var e, e' := Encoding(v, k), Encoding(v', k');
    assert e' == e + e'[|e|..];
    DecodeOfEncoding(v, k, e'[|e|..]);
    DecodeOfEncoding(v', k', []);
    assert e' + [] == e';
  }
}
