/**
 * The checksum of SD card commands: x^7 + x^3 + 1, most significant bit first, of section 4.5 of
 * the SD Physical Layer Simplified Specification.
 */
module Crc7 {
  import opened Machine
  import opened Crc7Table

  /** Shifts one message bit into the seven-bit remainder; bits arrive most significant first. */
  function FeedBit(c: bv8, bit: bool): bv8 {
    if (c & 0x40 != 0) != bit then ((c << 1) & 0x7F) ^ 0x09 else (c << 1) & 0x7F
  }

  /** The remainder moved to the top of a byte, where the table works on it. */
  function Aligned(c: bv8): bv8 {
    c << 1
  }

  function FeedBits(c: bv8, x: bv8, n: nat): bv8
    decreases n
  {
    if n == 0 then c else FeedBits(FeedBit(c, x & 0x80 != 0), x << 1, n - 1)
  }

  /** The remainder after dividing the bits of the message, starting from remainder c. */
  function Crc(c: bv8, s: seq<byte>): bv8
    decreases s
  {
    if s == [] then c else Crc(FeedBits(c, s[0] as bv8, 8), s[1..])
  }

  // ----------------------------------------------------------------------------------------
  // Table-driven division
  // ----------------------------------------------------------------------------------------

  function Xor(a: bv8, b: bv8): bv8 {
    a ^ b
  }

  lemma FeedOne(c: bv8, x: bv8)
    ensures Shift1(Xor(Aligned(c), x)) == Xor(Aligned(FeedBit(c, x & 0x80 != 0)), x << 1)
  {
    hide FeedBit, Shift1, Aligned;
    if c & 0x40 != 0 {
      if x & 0x80 != 0 {
        FeedOneOne(c, x);
      } else {
        FeedOneZero(c, x);
      }
    } else {
      if x & 0x80 != 0 {
        FeedZeroOne(c, x);
      } else {
        FeedZeroZero(c, x);
      }
    }
  }

  // The four combinations of the top bit of the remainder and the message bit.

  lemma FeedOneOne(c: bv8, x: bv8)
    requires c & 0x40 != 0 && x & 0x80 != 0
    ensures Shift1(Aligned(c) ^ x) == Aligned(FeedBit(c, true)) ^ (x << 1)
  {
  }

  lemma FeedOneZero(c: bv8, x: bv8)
    requires c & 0x40 != 0 && x & 0x80 == 0
    ensures Shift1(Aligned(c) ^ x) == Aligned(FeedBit(c, false)) ^ (x << 1)
  {
  }

  lemma FeedZeroOne(c: bv8, x: bv8)
    requires c & 0x40 == 0 && x & 0x80 != 0
    ensures Shift1(Aligned(c) ^ x) == Aligned(FeedBit(c, true)) ^ (x << 1)
  {
  }

  lemma FeedZeroZero(c: bv8, x: bv8)
    requires c & 0x40 == 0 && x & 0x80 == 0
    ensures Shift1(Aligned(c) ^ x) == Aligned(FeedBit(c, false)) ^ (x << 1)
  {
  }

  function Dropped(x: bv8, n: nat): bv8
    decreases n
  {
    if n == 0 then x else Dropped(x << 1, n - 1)
  }

  function Shifted(c: bv8, n: nat): bv8
    decreases n
  {
    if n == 0 then c else Shifted(Shift1(c), n - 1)
  }

  lemma {:induction false} FeedMany(c: bv8, x: bv8, n: nat)
    ensures Xor(Aligned(FeedBits(c, x, n)), Dropped(x, n)) == Shifted(Xor(Aligned(c), x), n)
    decreases n
  {
    hide Xor, FeedBit, Shift1, Aligned;
    if n > 0 {
      FeedOne(c, x);
      FeedMany(FeedBit(c, x & 0x80 != 0), x << 1, n - 1);
    }
  }

  lemma ShiftedByEight(c: bv8)
    ensures Shifted(c, 8) == Shift8(c)
  {
    hide Shift1;
    var c2 := Shift1(Shift1(c));
    var c4 := Shift1(Shift1(c2));
    var c6 := Shift1(Shift1(c4));
    assert Shifted(c6, 2) == Shift1(Shift1(c6));
    assert Shifted(c4, 4) == Shifted(c6, 2);
    assert Shifted(c2, 6) == Shifted(c4, 4);
  }

  lemma NothingLeft(x: bv8)
    ensures Dropped(x, 8) == 0
  {
    assert Dropped(x, 8) == Dropped(x << 1 << 1, 6);
    assert Dropped(x << 1 << 1, 6) == Dropped(x << 1 << 1 << 1 << 1, 4);
    assert Dropped(x << 1 << 1 << 1 << 1, 4) == Dropped(x << 1 << 1 << 1 << 1 << 1 << 1, 2);
    assert x << 1 << 1 << 1 << 1 << 1 << 1 << 1 << 1 == 0;
  }

  lemma {:induction false} SevenBits(c: bv8, x: bv8, n: nat)
    requires n > 0
    ensures FeedBits(c, x, n) <= 0x7F
    decreases n
  {
    if n > 1 {
      SevenBits(FeedBit(c, x & 0x80 != 0), x << 1, n - 1);
    } else {
      assert FeedBits(c, x, 1) == FeedBit(c, x & 0x80 != 0);
    }
  }

  lemma TableStep(c: bv8, x: bv8)
    ensures |TABLE| == 256 && Xor(x, Aligned(c)) as nat < 256
    ensures TABLE[Xor(x, Aligned(c)) as nat] == FeedBits(c, x, 8)
  {
    hide Shift8, FeedBits, Shifted, Dropped, TABLE, Xor, Aligned;
    FeedMany(c, x, 8);
    ShiftedByEight(Xor(Aligned(c), x));
    NothingLeft(x);
    SevenBits(c, x, 8);
    ByteFits(Xor(x, Aligned(c)));
    TableEntry(Xor(x, Aligned(c)));
    Realign(FeedBits(c, x, 8));
    XorCommutes(x, Aligned(c));
  }

  lemma ByteFits(i: bv8)
    ensures i <= 0xFF && i as nat < 256
  {
  }

  lemma XorCommutes(a: bv8, b: bv8)
    ensures Xor(a, b) == Xor(b, a)
  {
  }

  lemma Realign(c: bv8)
    requires c <= 0x7F
    ensures Xor(Aligned(c), 0) >> 1 == c
  {
  }

  method Update(crc: bv8, buf: array<byte>, off: nat, len: nat) returns (r: bv8)
    requires off + len <= buf.Length
    ensures r == Crc(crc, buf[off..off + len])
  {
    hide FeedBits, TABLE, Xor, Aligned;
    r := crc;
    var i := 0;
    while i < len
      invariant 0 <= i <= len
      invariant Crc(r, buf[off + i..off + len]) == Crc(crc, buf[off..off + len])
    {
      ghost var rest := buf[off + i..off + len];
      assert rest[0] == buf[off + i] && rest[1..] == buf[off + i + 1..off + len];
      var x := buf[off + i] as bv8;
      TableStep(r, x);
      r := TABLE[Xor(x, Aligned(r)) as nat];
      i := i + 1;
    }
  }

  lemma {:induction false} CrcConcat(c: bv8, s: seq<byte>, t: seq<byte>)
    ensures Crc(c, s + t) == Crc(Crc(c, s), t)
    decreases s
  {
    hide FeedBits;
    if s == [] {
      assert s + t == t;
    } else {
      assert (s + t)[1..] == s[1..] + t;
      CrcConcat(FeedBits(c, s[0] as bv8, 8), s[1..], t);
    }
  }
}
