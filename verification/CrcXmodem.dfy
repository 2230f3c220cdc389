/**
 * The checksum of SD card data blocks: the 16-bit CCITT polynomial, most significant bit first,
 * of section 4.5 of the SD Physical Layer Simplified Specification.
 */
module CrcXmodem {
  import opened Machine
  import opened CrcXmodemTable

  /** Shifts one message bit into the remainder; bits arrive most significant first. */
  function FeedBit(c: bv16, bit: bool): bv16 {
    if (c & 0x8000 != 0) != bit then (c << 1) ^ 0x1021 else c << 1
  }

  function FeedBits(c: bv16, x: bv16, n: nat): bv16
    decreases n
  {
    if n == 0 then c else FeedBits(FeedBit(c, x & 0x8000 != 0), x << 1, n - 1)
  }

  /** The remainder after dividing the bits of the message, starting from remainder c. */
  function Crc(c: bv16, s: seq<byte>): bv16
    decreases s
  {
    if s == [] then c else Crc(FeedBits(c, (s[0] as bv16) << 8, 8), s[1..])
  }

  // ----------------------------------------------------------------------------------------
  // Table-driven division
  // ----------------------------------------------------------------------------------------

  function Xor(a: bv16, b: bv16): bv16 {
    a ^ b
  }

  lemma FeedOne(c: bv16, x: bv16)
    ensures Shift1(Xor(c, x)) == Xor(FeedBit(c, x & 0x8000 != 0), x << 1)
  {
    hide FeedBit, Shift1;
    if c & 0x8000 != 0 {
      if x & 0x8000 != 0 {
        FeedOneOne(c, x);
      } else {
        FeedOneZero(c, x);
      }
    } else {
      if x & 0x8000 != 0 {
        FeedZeroOne(c, x);
      } else {
        FeedZeroZero(c, x);
      }
    }
  }

  // The four combinations of the top bit of the remainder and the message bit.

  lemma FeedOneOne(c: bv16, x: bv16)
    requires c & 0x8000 != 0 && x & 0x8000 != 0
    ensures Shift1(c ^ x) == FeedBit(c, true) ^ (x << 1)
  {
  }

  lemma FeedOneZero(c: bv16, x: bv16)
    requires c & 0x8000 != 0 && x & 0x8000 == 0
    ensures Shift1(c ^ x) == FeedBit(c, false) ^ (x << 1)
  {
  }

  lemma FeedZeroOne(c: bv16, x: bv16)
    requires c & 0x8000 == 0 && x & 0x8000 != 0
    ensures Shift1(c ^ x) == FeedBit(c, true) ^ (x << 1)
  {
  }

  lemma FeedZeroZero(c: bv16, x: bv16)
    requires c & 0x8000 == 0 && x & 0x8000 == 0
    ensures Shift1(c ^ x) == FeedBit(c, false) ^ (x << 1)
  {
  }

  function Dropped(x: bv16, n: nat): bv16
    decreases n
  {
    if n == 0 then x else Dropped(x << 1, n - 1)
  }

  function Shifted(c: bv16, n: nat): bv16
    decreases n
  {
    if n == 0 then c else Shifted(Shift1(c), n - 1)
  }

  lemma {:induction false} FeedMany(c: bv16, x: bv16, n: nat)
    ensures Xor(FeedBits(c, x, n), Dropped(x, n)) == Shifted(Xor(c, x), n)
    decreases n
  {
    hide Xor, FeedBit, Shift1;
    if n > 0 {
      FeedOne(c, x);
      FeedMany(FeedBit(c, x & 0x8000 != 0), x << 1, n - 1);
    }
  }

  lemma ShiftedByEight(c: bv16)
    ensures Shifted(c, 8) == Shift8(c)
  {
    hide Shift1;
    var c2 := Shift1(Shift1(c));
    var c4 := Shift1(Shift1(c2));
    var c6 := Shift1(Shift1(c4));
    assert Shifted(c6, 2) == Shift1(Shift1(c6));
    assert Shifted(c4, 4) == Shifted(c6, 2);
    assert Shifted(c2, 6) == Shifted(c4, 4);
  }

  lemma NothingLeft(x: bv16)
    requires x & 0xFF == 0
    ensures Dropped(x, 8) == 0
  {
    assert Dropped(x, 8) == Dropped(x << 1 << 1, 6);
    assert Dropped(x << 1 << 1, 6) == Dropped(x << 1 << 1 << 1 << 1, 4);
    assert Dropped(x << 1 << 1 << 1 << 1, 4) == Dropped(x << 1 << 1 << 1 << 1 << 1 << 1, 2);
    assert x << 1 << 1 << 1 << 1 << 1 << 1 << 1 << 1 == 0;
  }

  /** Feeding a byte is the same as adding it to the high end of the remainder and shifting. */
  lemma FeedByte(c: bv16, x: bv16)
    requires x <= 0xFF
    ensures FeedBits(c, x << 8, 8) == Shift8(Xor(c, x << 8))
  {
    hide Shift8, FeedBits, Shifted, Dropped, Xor;
    FeedMany(c, x << 8, 8);
    ShiftedByEight(Xor(c, x << 8));
    NothingLeft(x << 8);
    XorNothing(FeedBits(c, x << 8, 8));
  }

  lemma XorNothing(c: bv16)
    ensures Xor(c, 0) == c
  {
  }

  /** A byte in the low half only moves up within eight steps. */
  lemma LowByteMovesUp(c: bv16, x: bv16)
    requires x <= 0xFF
    ensures Shift8(Xor(c, x)) == Xor(Shift8(c), x << 8)
  {
    hide Xor, Shift8, FeedBits, Shifted, Dropped;
    FeedMany(c, x, 8);
    FeedSilence(c, x);
    ShiftedByEight(c);
    ShiftedByEight(Xor(c, x));
  }

  lemma FeedSilence(c: bv16, x: bv16)
    requires x <= 0xFF
    ensures FeedBits(c, x, 8) == Shifted(c, 8) && Dropped(x, 8) == x << 8
  {
    hide FeedBit, Shift1, FeedBits, Shifted, Dropped;
    LowHalf(x);
    var (c1, x1) := (Shift1(c), x << 1);
    FeedZero(c, x, 8);
    var (c2, x2) := (Shift1(c1), x1 << 1);
    FeedZero(c1, x1, 7);
    var (c3, x3) := (Shift1(c2), x2 << 1);
    FeedZero(c2, x2, 6);
    var (c4, x4) := (Shift1(c3), x3 << 1);
    FeedZero(c3, x3, 5);
    var (c5, x5) := (Shift1(c4), x4 << 1);
    FeedZero(c4, x4, 4);
    var (c6, x6) := (Shift1(c5), x5 << 1);
    FeedZero(c5, x5, 3);
    var (c7, x7) := (Shift1(c6), x6 << 1);
    FeedZero(c6, x6, 2);
    FeedZero(c7, x7, 1);
    FeedNone(Shift1(c7), x7 << 1);
  }

  lemma FeedNone(c: bv16, x: bv16)
    ensures FeedBits(c, x, 0) == c && Shifted(c, 0) == c && Dropped(x, 0) == x
  {
  }

  lemma FeedZero(c: bv16, x: bv16, n: nat)
    requires n > 0 && x & 0x8000 == 0
    ensures FeedBits(c, x, n) == FeedBits(Shift1(c), x << 1, n - 1)
    ensures Shifted(c, n) == Shifted(Shift1(c), n - 1) && Dropped(x, n) == Dropped(x << 1, n - 1)
  {
    assert FeedBit(c, false) == Shift1(c);
  }

  lemma LowHalf(x: bv16)
    requires x <= 0xFF
    ensures x & 0x8000 == 0 && (x << 1) & 0x8000 == 0 && (x << 1 << 1) & 0x8000 == 0
    ensures (x << 1 << 1 << 1) & 0x8000 == 0 && (x << 1 << 1 << 1 << 1) & 0x8000 == 0
    ensures (x << 1 << 1 << 1 << 1 << 1) & 0x8000 == 0 && (x << 1 << 1 << 1 << 1 << 1 << 1) & 0x8000 == 0
    ensures (x << 1 << 1 << 1 << 1 << 1 << 1 << 1) & 0x8000 == 0
    ensures x << 1 << 1 << 1 << 1 << 1 << 1 << 1 << 1 == x << 8
  {
  }

  function Up(c: bv16): bv16 {
    c << 8
  }

  /** Where the table is consulted. */
  function Index(c: bv16, x: bv16): bv16 {
    (c >> 8) ^ x
  }

  lemma TableStep(c: bv16, x: bv16)
    requires x <= 0xFF
    ensures |TABLE| == 256 && Index(c, x) as nat < 256
    ensures Xor(Up(c), TABLE[Index(c, x) as nat]) == FeedBits(c, x << 8, 8)
  {
    hide Shift8, FeedBits, TABLE, Xor, Up, Index;
    IndexFits(c, x);
    EntryAt(Index(c, x));
    Bytewise(c, x);
    XorCommutes(Up(c), TABLE[Index(c, x) as nat]);
  }

  lemma EntryAt(i: bv16)
    requires i <= 0xFF
    ensures |TABLE| == 256 && i as nat < 256 && TABLE[i as nat] == Shift8(Up(i))
  {
    hide Shift8, TABLE;
    TableEntry(i);
  }

  lemma IndexFits(c: bv16, x: bv16)
    requires x <= 0xFF
    ensures Index(c, x) <= 0xFF && Index(c, x) as nat < 256
  {
  }

  /** A byte step by its two halves: one is looked up, the other one only moves. */
  lemma Bytewise(c: bv16, x: bv16)
    requires x <= 0xFF
    ensures FeedBits(c, x << 8, 8) == Xor(Shift8(Up(Index(c, x))), Up(c))
  {
    hide Xor, Index, Shift8, FeedBits;
    Regroup(c, x);
    FeedByte(c, x);
    LowByteMovesUp(Up(Index(c, x)), c & 0xFF);
  }

  lemma Regroup(c: bv16, x: bv16)
    requires x <= 0xFF
    ensures Xor(c, x << 8) == Xor(Up(Index(c, x)), c & 0xFF)
    ensures (c & 0xFF) << 8 == Up(c) && c & 0xFF <= 0xFF
  {
    LowByteShifted(c);
    TwoHalves(c);
    IndexShifted(c, x);
    hide Index, Xor, Up;
    XorSwaps(Up(c >> 8), c & 0xFF, x << 8);
  }

  lemma LowByteShifted(c: bv16)
    ensures (c & 0xFF) << 8 == Up(c) && c & 0xFF <= 0xFF
  {
  }

  lemma TwoHalves(c: bv16)
    ensures c == Xor(Up(c >> 8), c & 0xFF)
  {
  }

  lemma IndexShifted(c: bv16, x: bv16)
    ensures Up(Index(c, x)) == Xor(Up(c >> 8), x << 8)
  {
  }

  lemma XorSwaps(a: bv16, b: bv16, d: bv16)
    ensures Xor(Xor(a, b), d) == Xor(Xor(a, d), b)
  {
  }

  lemma XorCommutes(a: bv16, b: bv16)
    ensures Xor(a, b) == Xor(b, a)
  {
  }

  lemma ByteBits(b: byte)
    ensures b as bv16 <= 0xFF
  {
  }

  method Update(crc: bv16, buf: array<byte>, off: nat, len: nat) returns (r: bv16)
    requires off + len <= buf.Length
    ensures r == Crc(crc, buf[off..off + len])
  {
    hide FeedBits, TABLE, Xor, Up, Index;
    r := crc;
    var i := 0;
    while i < len
      invariant 0 <= i <= len
      invariant Crc(r, buf[off + i..off + len]) == Crc(crc, buf[off..off + len])
    {
      ghost var rest := buf[off + i..off + len];
      assert rest[0] == buf[off + i] && rest[1..] == buf[off + i + 1..off + len];
      var x := buf[off + i] as bv16;
      ByteBits(buf[off + i]);
      TableStep(r, x);
      r := Xor(Up(r), TABLE[Index(r, x) as nat]);
      i := i + 1;
    }
  }

  lemma {:induction false} CrcConcat(c: bv16, s: seq<byte>, t: seq<byte>)
    ensures Crc(c, s + t) == Crc(Crc(c, s), t)
    decreases s
  {
    hide FeedBits;
    if s == [] {
      assert s + t == t;
    } else {
      assert (s + t)[1..] == s[1..] + t;
      CrcConcat(FeedBits(c, (s[0] as bv16) << 8, 8), s[1..], t);
    }
  }
}
