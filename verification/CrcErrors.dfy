/**
 * What the telemetry checksum detects: it is linear, a message followed by its checksum leaves
 * no remainder, and every error that is confined to sixteen consecutive bits leaves one.
 */
module CrcErrors {
  import opened Bits
  import opened Machine
  import opened CrcCcittTable
  import opened CrcCcitt

  // ----------------------------------------------------------------------------------------
  // Messages as bits
  // ----------------------------------------------------------------------------------------

  /** The n low bits of x, least significant first. */
  function LowBits(x: bv16, n: nat): (bits: seq<bool>)
    ensures |bits| == n
    decreases n
  {
    if n == 0 then [] else [x & 1 != 0] + LowBits(x >> 1, n - 1)
  }

  function ByteToBits(b: byte): (bits: seq<bool>)
    ensures |bits| == 8
  {
    LowBits(b as bv16, 8)
  }

  /** The bits of a message in the order in which they are sent. */
  function BitsOf(s: seq<byte>): (bits: seq<bool>)
    ensures |bits| == 8 * |s|
  {
    if s == [] then [] else ByteToBits(s[0]) + BitsOf(s[1..])
  }

  function FeedAll(c: bv16, bits: seq<bool>): bv16
    decreases bits
  {
    if bits == [] then c else FeedAll(FeedBit(c, bits[0]), bits[1..])
  }

  lemma {:induction false} FeedAllConcat(c: bv16, a: seq<bool>, b: seq<bool>)
    ensures FeedAll(c, a + b) == FeedAll(FeedAll(c, a), b)
    decreases a
  {
    hide FeedBit;
    if a == [] {
      assert a + b == b;
    } else {
      assert (a + b)[1..] == a[1..] + b;
      FeedAllConcat(FeedBit(c, a[0]), a[1..], b);
    }
  }

  lemma {:induction false} FeedLowBits(c: bv16, x: bv16, n: nat)
    ensures FeedBits(c, x, n) == FeedAll(c, LowBits(x, n))
    decreases n
  {
    hide FeedBit;
    if n > 0 {
      FeedLowBits(FeedBit(c, x & 1 != 0), x >> 1, n - 1);
      assert LowBits(x, n)[1..] == LowBits(x >> 1, n - 1);
    }
  }

  /** The checksum is the remainder of the bits. */
  lemma {:induction false} CrcOfBits(c: bv16, s: seq<byte>)
    ensures Crc(c, s) == FeedAll(c, BitsOf(s))
    decreases s
  {
    hide FeedBits, LowBits;
    if s != [] {
      var x := s[0] as bv16;
      FeedLowBits(c, x, 8);
      CrcOfBits(FeedBits(c, x, 8), s[1..]);
      FeedAllConcat(c, LowBits(x, 8), BitsOf(s[1..]));
    }
  }

  // ----------------------------------------------------------------------------------------
  // Linearity
  // ----------------------------------------------------------------------------------------

  /** Where two bit sequences differ. */
  function Differences(a: seq<bool>, b: seq<bool>): (d: seq<bool>)
    requires |a| == |b|
    ensures |d| == |a| && forall i :: 0 <= i < |a| ==> d[i] == (a[i] != b[i])
  {
    seq(|a|, i requires 0 <= i < |a| => a[i] != b[i])
  }

  predicate Odd(c: bv16) {
    c & 1 != 0
  }

  function Half(c: bv16): bv16 {
    c >> 1
  }

  lemma FeedBitIs(c: bv16, bit: bool)
    ensures FeedBit(c, bit) == if Odd(c) != bit then Xor(Half(c), 0x8408) else Half(c)
  {
  }

  lemma HalfXor(c: bv16, d: bv16)
    ensures Half(Xor(c, d)) == Xor(Half(c), Half(d)) && (Odd(Xor(c, d)) <==> (Odd(c) != Odd(d)))
  {
  }

  lemma XorCommutes(u: bv16, v: bv16)
    ensures Xor(u, v) == Xor(v, u)
  {
  }

  lemma XorAssociates(u: bv16, v: bv16, p: bv16)
    ensures Xor(Xor(u, v), p) == Xor(u, Xor(v, p))
  {
  }

  lemma XorCancels(u: bv16)
    ensures Xor(u, u) == 0 && Xor(u, 0) == u
  {
  }

  lemma XorMoves(u: bv16, v: bv16, p: bv16)
    ensures Xor(Xor(u, p), v) == Xor(Xor(u, v), p) && Xor(u, Xor(v, p)) == Xor(Xor(u, v), p)
    ensures Xor(Xor(u, p), Xor(v, p)) == Xor(u, v)
  {
    hide Xor;
    XorAssociates(u, v, p);
    XorAssociates(u, p, v);
    XorCommutes(p, v);
    XorAssociates(Xor(u, p), p, v);
    XorAssociates(u, p, p);
    XorCancels(p);
    XorCancels(u);
    XorCommutes(v, p);
  }

  lemma FeedBitLinear(c: bv16, d: bv16, p: bool, q: bool)
    ensures Xor(FeedBit(c, p), FeedBit(d, q)) == FeedBit(Xor(c, d), p != q)
  {
    hide *;
    FeedBitIs(c, p);
    FeedBitIs(d, q);
    FeedBitIs(Xor(c, d), p != q);
    HalfXor(c, d);
    XorMoves(Half(c), Half(d), 0x8408);
  }

  /** The remainders of two messages differ by the remainder of their difference. */
  lemma {:induction false} FeedAllLinear(c: bv16, d: bv16, a: seq<bool>, b: seq<bool>)
    requires |a| == |b|
    ensures Xor(FeedAll(c, a), FeedAll(d, b)) == FeedAll(Xor(c, d), Differences(a, b))
    decreases a
  {
    hide Xor, FeedBit;
    if a != [] {
      FeedBitLinear(c, d, a[0], b[0]);
      FeedAllLinear(FeedBit(c, a[0]), FeedBit(d, b[0]), a[1..], b[1..]);
      assert Differences(a, b)[1..] == Differences(a[1..], b[1..]);
    }
  }

  // ----------------------------------------------------------------------------------------
  // Bursts
  // ----------------------------------------------------------------------------------------

  predicate Silent(bits: seq<bool>) {
    forall i :: 0 <= i < |bits| ==> !bits[i]
  }

  lemma SilentStep(c: bv16)
    ensures FeedBit(c, false) == Shift1(c) && Shift1(0) == 0 && (c != 0 ==> Shift1(c) != 0)
  {
  }

  /** Without errors no remainder appears, and an existing one never disappears. */
  lemma {:induction false} SilenceKeeps(c: bv16, bits: seq<bool>)
    requires Silent(bits)
    ensures FeedAll(c, bits) == 0 <==> c == 0
    decreases bits
  {
    hide FeedBit, Shift1;
    if bits != [] {
      SilentStep(c);
      SilenceKeeps(FeedBit(c, bits[0]), bits[1..]);
    }
  }

  /** The number whose low bits these are. */
  function Value(bits: seq<bool>): bv16 {
    if bits == [] then 0 else Prepend(bits[0], Value(bits[1..]))
  }

  function Prepend(bit: bool, x: bv16): bv16 {
    if bit then (x << 1) | 1 else x << 1
  }

  predicate AtMost(x: bv16, m: bv16) {
    x <= m
  }

  /** The largest number of n bits. */
  function Mask(n: nat): bv16
    requires n <= 16
  {
    [0x0, 0x1, 0x3, 0x7, 0xF, 0x1F, 0x3F, 0x7F, 0xFF, 0x1FF, 0x3FF, 0x7FF, 0xFFF, 0x1FFF, 0x3FFF, 0x7FFF, 0xFFFF][n]
  }

  lemma MaskGrows(n: nat)
    requires 0 < n <= 16
    ensures Mask(n) == Prepend(true, Mask(n - 1)) && AtMost(Mask(n - 1), 0x7FFF)
  {
    hide Mask, Prepend, AtMost;
    if n <= 8 {
      LowMaskGrows(n);
    } else {
      HighMaskGrows(n);
    }
  }

  lemma LowMaskGrows(n: nat)
    requires 0 < n <= 8
    ensures Mask(n) == Prepend(true, Mask(n - 1)) && AtMost(Mask(n - 1), 0x7FFF)
  {
  }

  lemma HighMaskGrows(n: nat)
    requires 8 < n <= 16
    ensures Mask(n) == Prepend(true, Mask(n - 1)) && AtMost(Mask(n - 1), 0x7FFF)
  {
  }

  lemma PrependOne(x: bv16, m: bv16)
    requires AtMost(x, m) && AtMost(m, 0x7FFF)
    ensures AtMost(Prepend(true, x), Prepend(true, m))
  {
  }

  lemma PrependZero(x: bv16, m: bv16)
    requires AtMost(x, m) && AtMost(m, 0x7FFF)
    ensures AtMost(Prepend(false, x), Prepend(true, m))
  {
  }

  lemma {:induction false} ValueFits(bits: seq<bool>)
    requires |bits| <= 16
    ensures AtMost(Value(bits), Mask(|bits|))
  {
    hide AtMost, Prepend, Mask;
    if bits != [] {
      ValueFits(bits[1..]);
      PrependFits(bits[0], Value(bits[1..]), |bits|);
    } else {
      NothingIsLeast(Mask(0));
    }
  }

  lemma PrependFits(bit: bool, x: bv16, n: nat)
    requires 0 < n <= 16 && AtMost(x, Mask(n - 1))
    ensures AtMost(Prepend(bit, x), Mask(n))
  {
    hide AtMost, Prepend, Mask;
    MaskGrows(n);
    if bit {
      PrependOne(x, Mask(n - 1));
    } else {
      PrependZero(x, Mask(n - 1));
    }
  }

  lemma NothingIsLeast(m: bv16)
    ensures AtMost(0, m)
  {
  }

  /** Undoing a step: while the top bit of the result is clear, the message bit comes back. */
  lemma StepBack(c: bv16, bit: bool)
    requires FeedBit(c, bit) <= 0x7FFF
    ensures c == Prepend(bit, FeedBit(c, bit))
  {
  }

  /** At most sixteen bits lead to remainder zero only from the number that they are. */
  lemma {:induction false} ZeroComesFromValue(c: bv16, bits: seq<bool>)
    requires |bits| <= 16 && FeedAll(c, bits) == 0
    ensures c == Value(bits)
    decreases bits
  {
    hide FeedBit, Prepend, Mask;
    if bits != [] {
      var rest := bits[1..];
      ZeroComesFromValue(FeedBit(c, bits[0]), rest);
      ValueFits(rest);
      MaskGrows(|bits|);
      StepBack(c, bits[0]);
    }
  }

  lemma PrependIsZero(bit: bool, x: bv16)
    requires x <= 0x7FFF && Prepend(bit, x) == 0
    ensures !bit && x == 0
  {
  }

  lemma {:induction false} ZeroValueIsSilent(bits: seq<bool>)
    requires |bits| <= 16 && Value(bits) == 0
    ensures Silent(bits)
  {
    hide Prepend, Mask;
    if bits != [] {
      var rest := bits[1..];
      ValueFits(rest);
      MaskGrows(|bits|);
      PrependIsZero(bits[0], Value(rest));
      ZeroValueIsSilent(rest);
      assert bits == [bits[0]] + rest;
    }
  }

  lemma XorEqual(a: bv16, b: bv16)
    ensures Xor(a, b) == 0 <==> a == b
  {
    hide Xor;
    XorCancels(a);
    XorCancels(b);
    XorAssociates(a, b, b);
    XorCommutes(0, b);
  }

  /** The two messages differ, and only within sixteen consecutive bits from position i on. */
  predicate Burst(a: seq<bool>, b: seq<bool>, i: nat)
    requires |a| == |b|
  {
    a != b && forall j :: 0 <= j < |a| && !(i <= j < i + 16) ==> a[j] == b[j]
  }

  /** Every burst of at most sixteen bits changes the checksum, wherever it is. */
  lemma BurstIsDetected(c: bv16, s: seq<byte>, t: seq<byte>, i: nat)
    requires |s| == |t| && Burst(BitsOf(s), BitsOf(t), i)
    ensures Crc(c, s) != Crc(c, t)
  {
    hide FeedAll, Shifted, Xor, Crc, BitsOf;
    var a, b := BitsOf(s), BitsOf(t);
    CrcOfBits(c, s);
    CrcOfBits(c, t);
    FeedAllLinear(c, c, a, b);
    XorEqual(c, c);
    BurstRemains(a, b, i);
    XorEqual(Crc(c, s), Crc(c, t));
  }

  lemma BurstRemains(a: seq<bool>, b: seq<bool>, i: nat)
    requires |a| == |b| && Burst(a, b, i)
    ensures FeedAll(0, Differences(a, b)) != 0
  {
    hide FeedAll, Silent;
    var end := Window(a, b, i);
    var d := Differences(a, b);
    var before, window, after := d[..i], d[i..end], d[end..];
    WindowRemains(before, window, after);
    assert d == before + (window + after);
  }

  /** The errors are all inside the window, and there are some. */
  lemma Window(a: seq<bool>, b: seq<bool>, i: nat) returns (end: nat)
    requires |a| == |b| && Burst(a, b, i)
    ensures i < end <= |a| && end <= i + 16
    ensures var d := Differences(a, b); Silent(d[..i]) && !Silent(d[i..end]) && Silent(d[end..])
  {
    var d := Differences(a, b);
    var k :| 0 <= k < |a| && a[k] != b[k];
    end := if i + 16 <= |d| then i + 16 else |d|;
    assert d[i..end][k - i];
  }

  lemma WindowRemains(before: seq<bool>, window: seq<bool>, after: seq<bool>)
    requires Silent(before) && |window| <= 16 && !Silent(window) && Silent(after)
    ensures FeedAll(0, before + (window + after)) != 0
  {
    hide FeedAll, Value, Silent;
    SilenceKeeps(0, before);
    FeedAllConcat(0, before, window + after);
    FeedAllConcat(0, window, after);
    if FeedAll(0, window) == 0 {
      ZeroComesFromValue(0, window);
      ZeroValueIsSilent(window);
    }
    SilenceKeeps(FeedAll(0, window), after);
  }

  // ----------------------------------------------------------------------------------------
  // Errors in adjacent bytes
  // ----------------------------------------------------------------------------------------

  lemma {:induction false} BitAt(s: seq<byte>, j: nat, k: nat)
    requires j < |s| && k < 8
    ensures BitsOf(s)[8 * j + k] == ByteToBits(s[j])[k]
  {
    hide ByteToBits;
    if j > 0 {
      BitAt(s[1..], j - 1, k);
    }
  }

  lemma {:induction false} ValueOfLowBits(x: bv16, n: nat)
    requires n <= 16 && AtMost(x, Mask(n))
    ensures Value(LowBits(x, n)) == x
    decreases n
  {
    hide AtMost, Prepend, Mask, LowBits;
    LowBitsStep(x, n);
    if n == 0 {
      NoBits(x);
      assert Value(LowBits(x, n)) == x;
    } else {
      Halved(x, n);
      var half := x >> 1;
      ValueOfLowBits(half, n - 1);
      assert Value(LowBits(x, n)) == Prepend(x & 1 != 0, half);
      assert Value(LowBits(x, n)) == x;
    }
  }

  lemma LowBitsStep(x: bv16, n: nat)
    ensures n == 0 ==> LowBits(x, n) == []
    ensures n > 0 ==> LowBits(x, n)[0] == (x & 1 != 0) && LowBits(x, n)[1..] == LowBits(x >> 1, n - 1)
  {
  }

  lemma NoBits(x: bv16)
    requires AtMost(x, Mask(0))
    ensures x == 0
  {
  }

  lemma Halved(x: bv16, n: nat)
    requires 0 < n <= 16 && AtMost(x, Mask(n))
    ensures AtMost(x >> 1, Mask(n - 1)) && Prepend(x & 1 != 0, x >> 1) == x
  {
    hide AtMost, Prepend, Mask;
    MaskGrows(n);
    HalvedBits(x, Mask(n - 1));
  }

  lemma HalvedBits(x: bv16, m: bv16)
    requires AtMost(x, Prepend(true, m)) && AtMost(m, 0x7FFF)
    ensures AtMost(x >> 1, m) && Prepend(x & 1 != 0, x >> 1) == x
  {
    HalvedSize(x, m);
    if x & 1 != 0 {
      OddHalves(x);
    } else {
      EvenHalves(x);
    }
  }

  lemma HalvedSize(x: bv16, m: bv16)
    requires x <= (m << 1) | 1 && m <= 0x7FFF
    ensures x >> 1 <= m
  {
  }

  lemma OddHalves(x: bv16)
    requires x & 1 != 0
    ensures ((x >> 1) << 1) | 1 == x
  {
  }

  lemma EvenHalves(x: bv16)
    requires x & 1 == 0
    ensures (x >> 1) << 1 == x
  {
  }

  /** Different bytes differ in one of their bits. */
  lemma BytesDiffer(a: byte, b: byte) returns (p: nat)
    requires a != b
    ensures p < 8 && ByteToBits(a)[p] != ByteToBits(b)[p]
  {
    hide LowBits, Value;
    AsWideBits(a);
    AsWideBits(b);
    ByteBits(a);
    ByteBits(b);
    ValueOfLowBits(a as bv16, 8);
    ValueOfLowBits(b as bv16, 8);
    p := Difference(LowBits(a as bv16, 8), LowBits(b as bv16, 8));
  }

  /** Changing one byte, or two adjacent ones, is such a burst. */
  lemma AdjacentBytesAreBurst(s: seq<byte>, t: seq<byte>, j: nat)
    requires |s| == |t| && s != t
    requires forall k :: 0 <= k < |s| && k != j && k != j + 1 ==> s[k] == t[k]
    ensures Burst(BitsOf(s), BitsOf(t), 8 * j)
  {
    hide BitsOf, ByteToBits;
    forall i | 0 <= i < 8 * |s| && !(8 * j <= i < 8 * j + 16)
      ensures BitsOf(s)[i] == BitsOf(t)[i]
    {
      var k := i / 8;
      assert i == 8 * k + i % 8 && k != j && k != j + 1;
      BitAt(s, k, i % 8);
      BitAt(t, k, i % 8);
    }
    BitsDiffer(s, t);
  }

  lemma {:induction false} Difference(a: seq<bool>, b: seq<bool>) returns (k: nat)
    requires |a| == |b| && a != b
    ensures k < |a| && a[k] != b[k]
  {
    if a[0] != b[0] {
      k := 0;
    } else {
      assert a == [a[0]] + a[1..] && b == [b[0]] + b[1..];
      k := Difference(a[1..], b[1..]);
      k := k + 1;
    }
  }

  lemma BitsDiffer(s: seq<byte>, t: seq<byte>)
    requires |s| == |t| && s != t
    ensures BitsOf(s) != BitsOf(t)
  {
    hide BitsOf, ByteToBits;
    var k :| 0 <= k < |s| && s[k] != t[k];
    ByteBitsDiffer(s, t, k);
  }

  lemma ByteBitsDiffer(s: seq<byte>, t: seq<byte>, k: nat)
    requires k < |s| == |t| && s[k] != t[k]
    ensures BitsOf(s) != BitsOf(t)
  {
    hide BitsOf, ByteToBits;
    var p := BytesDiffer(s[k], t[k]);
    BitAt(s, k, p);
    BitAt(t, k, p);
    assert BitsOf(s)[8 * k + p] != BitsOf(t)[8 * k + p];
  }

  // ----------------------------------------------------------------------------------------
  // The residue
  // ----------------------------------------------------------------------------------------

  /** The checksum in the order in which it is sent. */
  function Checksum(c: bv16): seq<byte> {
    HalvesFit(c);
    [Low(c) as nat, High(c) as nat]
  }

  /** A message followed by its checksum leaves no remainder. */
  lemma ResidueIsZero(s: seq<byte>)
    ensures Crc(0, s + Checksum(Crc(0, s))) == 0
  {
    hide Crc;
    var c := Crc(0, s);
    CrcConcat(0, s, Checksum(c));
    CrcOfChecksum(c);
  }

  lemma CrcOfChecksum(c: bv16)
    ensures Crc(c, Checksum(c)) == 0
  {
    hide Crc, Shift8, Xor, High, Low;
    HalvesFit(c);
    var low, high := Low(c), High(c);
    assert Checksum(c) == [low as nat] + [high as nat];
    CrcConcat(c, [low as nat], [high as nat]);
    Halves(c);
    CrcOfByte(c, low);
    LowHalfCancels(c);
    CrcOfByte(high, high);
    XorCancels(high);
    SilentByte();
  }

  lemma LowHalfCancels(c: bv16)
    ensures Shift8(Xor(c, Low(c))) == High(c)
  {
    hide Shift8, Xor, High, Low;
    Shift8Splits(Xor(c, Low(c)));
    Halves(c);
    SilentByte();
    XorCancels(High(c));
  }

  lemma CrcOfByte(c: bv16, x: bv16)
    requires x <= 0xFF
    ensures Crc(c, [x as nat]) == FeedBits(c, x, 8) == Shift8(Xor(c, x))
  {
    hide FeedBits, Shift8, Xor;
    FeedByte(c, x);
    WideBackAndForth(x);
    assert [x as nat][1..] == [];
  }

  /** One more byte of a message. */
  lemma CrcOfNext(s: seq<byte>, c: bv16, b: byte, x: bv16, next: bv16)
    requires Crc(0, s) == c && x <= 0xFF && x as nat == b && Shift8(Xor(c, x)) == next
    ensures Crc(0, s + [b]) == next
  {
    hide Crc, Shift8, Xor;
    CrcConcat(0, s, [b]);
    CrcOfByte(c, x);
  }

  lemma WideBackAndForth(x: bv16)
    ensures (x as nat) as bv16 == x
  {
  }

  lemma Halves(c: bv16)
    ensures High(Xor(c, Low(c))) == High(c) && Low(Xor(c, Low(c))) == 0
  {
  }

  lemma HalvesFit(c: bv16)
    ensures Low(c) <= 0xFF && High(c) <= 0xFF && Low(c) as nat < 256 && High(c) as nat < 256
  {
  }

  lemma SilentByte()
    ensures Shift8(0) == 0
  {
    assert Shift1(0) == 0;
  }
}
