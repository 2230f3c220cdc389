/**
 * The checksum of telemetry frames: the FCS-16 polynomial of appendix C.2 of RFC 1662, but with
 * initial value zero and without a final complement. The table-driven form is proved against
 * the bit-serial division it stands for.
 */
module CrcCcitt {
  import opened Machine
  import opened CrcCcittTable

  // ----------------------------------------------------------------------------------------
  // Bit-serial division
  // ----------------------------------------------------------------------------------------

  /** Shifts one message bit into the remainder; bits arrive least significant first. */
  function FeedBit(c: bv16, bit: bool): bv16 {
    if (c & 1 != 0) != bit then (c >> 1) ^ 0x8408 else c >> 1
  }

  function FeedBits(c: bv16, x: bv16, n: nat): bv16
    decreases n
  {
    if n == 0 then c else FeedBits(FeedBit(c, x & 1 != 0), x >> 1, n - 1)
  }

  /** The remainder after dividing the bits of the message, starting from remainder c. */
  function Crc(c: bv16, s: seq<byte>): bv16
    decreases s
  {
    if s == [] then c else Crc(FeedBits(c, s[0] as bv16, 8), s[1..])
  }

  // ----------------------------------------------------------------------------------------
  // Table-driven division
  // ----------------------------------------------------------------------------------------

  lemma FeedOne(c: bv16, x: bv16)
    ensures Shift1(Xor(c, x)) == Xor(FeedBit(c, x & 1 != 0), x >> 1)
  {
    hide FeedBit, Shift1;
    if c & 1 != 0 {
      if x & 1 != 0 {
        FeedOneOne(c, x);
      } else {
        FeedOneZero(c, x);
      }
    } else {
      if x & 1 != 0 {
        FeedZeroOne(c, x);
      } else {
        FeedZeroZero(c, x);
      }
    }
  }

  // The four combinations of the low bit of the remainder and the message bit.

  lemma FeedOneOne(c: bv16, x: bv16)
    requires c & 1 != 0 && x & 1 != 0
    ensures Shift1(c ^ x) == FeedBit(c, true) ^ (x >> 1)
  {
  }

  lemma FeedOneZero(c: bv16, x: bv16)
    requires c & 1 != 0 && x & 1 == 0
    ensures Shift1(c ^ x) == FeedBit(c, false) ^ (x >> 1)
  {
  }

  lemma FeedZeroOne(c: bv16, x: bv16)
    requires c & 1 == 0 && x & 1 != 0
    ensures Shift1(c ^ x) == FeedBit(c, true) ^ (x >> 1)
  {
  }

  lemma FeedZeroZero(c: bv16, x: bv16)
    requires c & 1 == 0 && x & 1 == 0
    ensures Shift1(c ^ x) == FeedBit(c, false) ^ (x >> 1)
  {
  }

  function Xor(a: bv16, b: bv16): bv16 {
    a ^ b
  }

  lemma {:induction false} FeedMany(c: bv16, x: bv16, n: nat)
    ensures Xor(FeedBits(c, x, n), Dropped(x, n)) == Shifted(Xor(c, x), n)
    decreases n
  {
    hide Xor, FeedBit, Shift1;
    if n > 0 {
      FeedOne(c, x);
      FeedMany(FeedBit(c, x & 1 != 0), x >> 1, n - 1);
    }
  }

  function Dropped(x: bv16, n: nat): bv16
    decreases n
  {
    if n == 0 then x else Dropped(x >> 1, n - 1)
  }

  function Shifted(c: bv16, n: nat): bv16
    decreases n
  {
    if n == 0 then c else Shifted(Shift1(c), n - 1)
  }

  lemma ShiftedByEight(c: bv16)
    ensures Shifted(c, 8) == Shift8(c)
  {
    hide Shift1;
    var c2 := Shift1(Shift1(c));
    var c4 := Shift1(Shift1(c2));
    var c6 := Shift1(Shift1(c4));
    assert Shifted(c6, 2) == Shift1(Shift1(c6));
    assert Shifted(c4, 4) == Shifted(c6, 2);
    assert Shifted(c2, 6) == Shifted(c4, 4);
  }

  lemma NothingLeft(x: bv16)
    requires x <= 0xFF
    ensures Dropped(x, 8) == 0
  {
    assert Dropped(x, 8) == Dropped(x >> 1 >> 1, 6);
    assert Dropped(x >> 1 >> 1, 6) == Dropped(x >> 1 >> 1 >> 1 >> 1, 4);
    assert Dropped(x >> 1 >> 1 >> 1 >> 1, 4) == Dropped(x >> 1 >> 1 >> 1 >> 1 >> 1 >> 1, 2);
    assert x >> 1 >> 1 >> 1 >> 1 >> 1 >> 1 >> 1 >> 1 == 0;
  }

  /** Feeding a byte is the same as adding it to the low end of the remainder and shifting. */
  lemma FeedByte(c: bv16, x: bv16)
    requires x <= 0xFF
    ensures FeedBits(c, x, 8) == Shift8(Xor(c, x))
  {
    hide Shift8, FeedBits, Shifted, Dropped, Xor;
    FeedMany(c, x, 8);
    ShiftedByEight(Xor(c, x));
    NothingLeft(x);
    XorNothing(FeedBits(c, x, 8));
  }

  lemma XorNothing(c: bv16)
    ensures Xor(c, 0) == c
  {
  }

  function High(c: bv16): bv16 {
    c >> 8
  }

  function Low(c: bv16): bv16 {
    c & 0xFF
  }

  /** The high byte of the remainder only moves down within eight steps. */
  lemma Shift8Splits(y: bv16)
    ensures Shift8(y) == Xor(High(y), Shift8(Low(y)))
  {
    hide Xor, High, Low, Shift8, FeedBits, Shifted, Dropped;
    var low, high := Low(y), y & 0xFF00;
    FeedMany(low, high, 8);
    FeedSilence(low, high);
    TwoHalves(y);
    ShiftedByEight(low);
    ShiftedByEight(y);
    XorCommutes(Shift8(low), High(y));
  }

  lemma TwoHalves(y: bv16)
    ensures Xor(Low(y), y & 0xFF00) == y && (y & 0xFF00) >> 8 == High(y) && (y & 0xFF00) & 0xFF == 0
  {
  }

  lemma XorCommutes(a: bv16, b: bv16)
    ensures Xor(a, b) == Xor(b, a)
  {
  }

  lemma FeedSilence(c: bv16, x: bv16)
    requires x & 0xFF == 0
    ensures FeedBits(c, x, 8) == Shifted(c, 8) && Dropped(x, 8) == x >> 8
  {
    hide FeedBit, Shift1, FeedBits, Shifted, Dropped;
    HighHalf(x);
    var (c1, x1) := (Shift1(c), x >> 1);
    FeedZero(c, x, 8);
    var (c2, x2) := (Shift1(c1), x1 >> 1);
    FeedZero(c1, x1, 7);
    var (c3, x3) := (Shift1(c2), x2 >> 1);
    FeedZero(c2, x2, 6);
    var (c4, x4) := (Shift1(c3), x3 >> 1);
    FeedZero(c3, x3, 5);
    var (c5, x5) := (Shift1(c4), x4 >> 1);
    FeedZero(c4, x4, 4);
    var (c6, x6) := (Shift1(c5), x5 >> 1);
    FeedZero(c5, x5, 3);
    var (c7, x7) := (Shift1(c6), x6 >> 1);
    FeedZero(c6, x6, 2);
    FeedZero(c7, x7, 1);
    FeedNone(Shift1(c7), x7 >> 1);
  }

  lemma FeedNone(c: bv16, x: bv16)
    ensures FeedBits(c, x, 0) == c && Shifted(c, 0) == c && Dropped(x, 0) == x
  {
  }

  lemma FeedZero(c: bv16, x: bv16, n: nat)
    requires n > 0 && x & 1 == 0
    ensures FeedBits(c, x, n) == FeedBits(Shift1(c), x >> 1, n - 1)
    ensures Shifted(c, n) == Shifted(Shift1(c), n - 1) && Dropped(x, n) == Dropped(x >> 1, n - 1)
  {
    assert FeedBit(c, false) == Shift1(c);
  }

  lemma HighHalf(x: bv16)
    requires x & 0xFF == 0
    ensures x & 1 == 0 && (x >> 1) & 1 == 0 && (x >> 1 >> 1) & 1 == 0
    ensures (x >> 1 >> 1 >> 1) & 1 == 0 && (x >> 1 >> 1 >> 1 >> 1) & 1 == 0
    ensures (x >> 1 >> 1 >> 1 >> 1 >> 1) & 1 == 0 && (x >> 1 >> 1 >> 1 >> 1 >> 1 >> 1) & 1 == 0
    ensures (x >> 1 >> 1 >> 1 >> 1 >> 1 >> 1 >> 1) & 1 == 0
    ensures x >> 1 >> 1 >> 1 >> 1 >> 1 >> 1 >> 1 >> 1 == x >> 8
  {
  }

  lemma TableStep(c: bv16, x: bv16)
    requires x <= 0xFF
    ensures |TABLE| == 256 && Low(Xor(c, x)) as nat < 256
    ensures Xor(High(c), TABLE[Low(Xor(c, x)) as nat]) == FeedBits(c, x, 8)
  {
    hide Shift8, FeedBits, TABLE, Xor, High, Low;
    Bytewise(c, x);
    LowByteFits(Xor(c, x));
    TableEntry(Low(Xor(c, x)));
  }

  /** A byte step by its two halves: one is looked up, the other one only moves. */
  lemma Bytewise(c: bv16, x: bv16)
    requires x <= 0xFF
    ensures FeedBits(c, x, 8) == Xor(High(c), Shift8(Low(Xor(c, x))))
  {
    hide Shift8, FeedBits, Xor, High, Low;
    FeedByte(c, x);
    Shift8Splits(Xor(c, x));
    HighByte(c, x);
  }

  lemma HighByte(c: bv16, x: bv16)
    requires x <= 0xFF
    ensures High(Xor(c, x)) == High(c)
  {
  }

  lemma LowByteFits(y: bv16)
    ensures Low(y) <= 0xFF && Low(y) as nat < 256
  {
  }

  method Update(crc: bv16, buf: array<byte>, off: nat, len: nat) returns (r: bv16)
    requires off + len <= buf.Length
    ensures r == Crc(crc, buf[off..off + len])
  {
    hide FeedBits, TABLE, Xor, High, Low;
    r := crc;
    var i := 0;
    while i < len
      invariant 0 <= i <= len
      invariant Crc(r, buf[off + i..off + len]) == Crc(crc, buf[off..off + len])
    {
      ghost var rest := buf[off + i..off + len];
      assert rest[0] == buf[off + i] && rest[1..] == buf[off + i + 1..off + len];
      var x := buf[off + i] as bv16;
      ByteBits(buf[off + i]);
      TableStep(r, x);
      r := Xor(High(r), TABLE[Low(Xor(r, x)) as nat]);
      i := i + 1;
    }
  }

  lemma ByteBits(b: byte)
    ensures b as bv16 <= 0xFF
  {
  }

  lemma {:induction false} CrcConcat(c: bv16, s: seq<byte>, t: seq<byte>)
    ensures Crc(c, s + t) == Crc(Crc(c, s), t)
    decreases s
  {
    hide FeedBits;
    if s == [] {
      assert s + t == t;
    } else {
      assert (s + t)[1..] == s[1..] + t;
      CrcConcat(FeedBits(c, s[0] as bv16, 8), s[1..], t);
    }
  }
}
